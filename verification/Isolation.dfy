/**
 Processes beside one another on one machine. What one allocates or frees leaves
 all others' page tables, allocation records and bytes as they are, and over every
 interleaving of starts, allocations and frees they stay valid and apart.
 */
module Isolation {
  import opened Bytes
  import opened KernelHeap
  import opened PageTables
  import opened Paging
  import opened ProcessMemory

  /** No record of one is a record of the other. */
  ghost predicate RecordsApart(a: seq<Allocation>, b: seq<Allocation>) {
    forall i, j :: 0 <= i < |a| && 0 <= j < |b| && a[i].ptr != 0 ==> a[i].ptr != b[j].ptr
  }

  /** No record starts on one of the pages. */
  ghost predicate RecordsClear(a: seq<Allocation>, pages: set<int>) {
    forall i :: 0 <= i < |a| && a[i].ptr != 0 ==> a[i].ptr / PAGE_SIZE !in pages
  }

  /** The processes share the machine and nothing else. */
  ghost predicate Beside(p: Process, q: Process)
    reads p.allocations, q.allocations
  {
    && p.machine == q.machine && Apart(p.allocations, q.allocations)
    && p.sp.Pages() !! q.sp.Pages()
    && RecordsApart(p.allocations[..], q.allocations[..])
    && RecordsClear(p.allocations[..], q.sp.Pages()) && RecordsClear(q.allocations[..], p.sp.Pages())
  }

  lemma BesideSymmetric(p: Process, q: Process)
    requires Beside(p, q)
    ensures Beside(q, p)
  {
  }

  /** The processes of a machine: all valid, any two beside one another. */
  ghost predicate Community(m: Machine, ps: seq<Process>)
    reads m, m.heap, m.heap.entries, ps, set i | 0 <= i < |ps| :: ps[i].allocations
    reads set i | 0 <= i < |ps| :: ps[i].machine
    reads set i | 0 <= i < |ps| :: ps[i].machine.heap
    reads set i | 0 <= i < |ps| :: ps[i].machine.heap.entries
  {
    && m.Valid()
    && (forall i :: 0 <= i < |ps| ==> ps[i].machine == m && ps[i].Valid())
    && (forall i, j :: 0 <= i < |ps| && 0 <= j < |ps| && i != j ==> Beside(ps[i], ps[j]))
  }

  /** What memory and heap hold of a process is in order. */
  ghost predicate Sound(mem: seq<Byte>, sp: Space, allocs: seq<Allocation>, runs: map<int, int>, base: int,
                        total: nat) {
    && SpaceIn(mem, sp) && |mem| == UINT32 && sp.Distinct() && OwnsPages(runs, base, sp.Pages())
    && LiveRecords(allocs, mem, sp, runs, base, total)
  }

  lemma ValidIsSound(p: Process)
    requires p.Valid()
    ensures Sound(p.machine.mem, p.sp, p.allocations[..], p.machine.heap.runs, p.machine.base,
                  p.machine.heap.entries.Length)
  {
    hide Partitioned, OwnsPages, LiveRecords;
  }

  lemma SoundIsValid(p: Process)
    requires p.machine.Valid() && p.chunk == PAGE_SIZE * p.sp.chunk && p.directory == PAGE_SIZE * p.sp.dir
    requires p.allocations.Length == MAX_ALLOCATIONS && Apart(p.allocations, p.machine.heap.entries)
    requires Sound(p.machine.mem, p.sp, p.allocations[..], p.machine.heap.runs, p.machine.base,
                   p.machine.heap.entries.Length)
    ensures p.Valid()
  {
    hide Partitioned, OwnsPages, LiveRecords, SpaceIn;
  }

  /** Byte `x` belongs to a live record. */
  ghost predicate InRecord(a: Allocation, x: int) {
    a.ptr != 0 && a.ptr <= x < a.ptr + a.size
  }

  /** Every byte of every live record is what it was. */
  ghost predicate BytesKept(mem: seq<Byte>, after: seq<Byte>, allocs: seq<Allocation>) {
    && |mem| == |after|
    && forall i, x :: 0 <= i < |allocs| && 0 <= x < |mem| && InRecord(allocs[i], x) ==> after[x] == mem[x]
  }

  /** A run holds no page of its own but its first that is a run, too. */
  lemma RunAvoidsPages(runs: map<int, int>, base: int, pages: set<int>, page: int, n: int, q: int)
    requires RunsApart(runs) && OwnsPages(runs, base, pages)
    requires page - base in runs && runs[page - base] == n && page !in pages && page <= q < page + n
    ensures q !in pages && InRun(runs, q - base)
  {
    assert q in pages ==> q - base in runs;
  }

  /** Records outlive any change that spares memory in use, the given pages aside. */
  lemma RecordBytesFrame(mem: seq<Byte>, after: seq<Byte>, pages: set<int>, sp: Space, allocs: seq<Allocation>,
                         runs: map<int, int>, base: int, total: nat)
    requires |mem| == UINT32 && sp.Distinct() && LiveRecords(allocs, mem, sp, runs, base, total)
    requires RunsApart(runs) && OwnsPages(runs, base, pages) && RecordsClear(allocs, pages)
    requires LiveKept(mem, after, pages, base, runs, total)
    ensures BytesKept(mem, after, allocs)
  {
    hide BlocksFor, LiveRecord;
    forall i, x | 0 <= i < |allocs| && 0 <= x < |mem| && InRecord(allocs[i], x)
      ensures after[x] == mem[x]
    {
      RecordByte(allocs[i], mem, sp, runs, base, total, x);
      var page, q := allocs[i].ptr / PAGE_SIZE, x / PAGE_SIZE;
      RunAvoidsPages(runs, base, pages, page, runs[page - base], q);
    }
  }

  /** Each byte of a live record lies in its run. */
  lemma RecordByte(a: Allocation, mem: seq<Byte>, sp: Space, runs: map<int, int>, base: int, total: nat, x: int)
    requires |mem| == UINT32 && sp.Distinct() && LiveRecord(a, mem, sp, runs, base, total)
    requires a.ptr <= x < a.ptr + a.size
    ensures var page := a.ptr / PAGE_SIZE;
      page - base in runs && page <= x / PAGE_SIZE < page + runs[page - base]
  {
    BlocksHold(a.size);
  }

  /** An address space outlives any such change. */
  lemma SpaceOutlives(mem: seq<Byte>, after: seq<Byte>, pages: set<int>, sp: Space, runs: map<int, int>, base: int,
                      total: nat)
    requires SpaceIn(mem, sp) && OwnsPages(runs, base, sp.Pages()) && pages !! sp.Pages()
    requires LiveKept(mem, after, pages, base, runs, total)
    ensures SpaceIn(after, sp) && |after| == UINT32 && sp.Distinct() && SameEntries(mem, after, sp)
  {
    forall a | 0 <= a < UINT32 && a / PAGE_SIZE !in OtherPages(sp)
      ensures after[a] == mem[a]
    {
      var q := a / PAGE_SIZE;
      assert q in sp.Pages() && q - base in runs;
      assert InRun(runs, q - base);
    }
    SpaceFrame(mem, after, OtherPages(sp), sp);
  }

  /** Records outlive new runs and the end of runs that are not theirs. */
  lemma RecordsOutlive(allocs: seq<Allocation>, mem: seq<Byte>, after: seq<Byte>, sp: Space, runs: map<int, int>,
                       next: map<int, int>, base: int, total: nat)
    requires |mem| == UINT32 && |after| == UINT32 && sp.Distinct() && LiveRecords(allocs, mem, sp, runs, base, total)
    requires SameEntries(mem, after, sp) && RunsKept(allocs, sp, runs, next, base) && OwnsPages(runs, base, sp.Pages())
    ensures LiveRecords(allocs, after, sp, next, base, total) && OwnsPages(next, base, sp.Pages())
  {
    hide Entry, BlocksFor;
    forall i | 0 <= i < |allocs| && allocs[i].ptr != 0
      ensures LiveRecord(allocs[i], after, sp, next, base, total)
    {
      assert LiveRecord(allocs[i], mem, sp, runs, base, total);
    }
  }

  /** The records' runs and the space's pages are runs still. */
  ghost predicate RunsKept(allocs: seq<Allocation>, sp: Space, runs: map<int, int>, next: map<int, int>, base: int) {
    && (forall i :: 0 <= i < |allocs| && allocs[i].ptr != 0 && allocs[i].ptr / PAGE_SIZE - base in runs ==>
          var s := allocs[i].ptr / PAGE_SIZE - base; s in next && next[s] == runs[s])
    && (forall p :: p in sp.Pages() && p - base in runs ==> p - base in next && next[p - base] == runs[p - base])
  }

  /** An allocation by one process keeps all valid and beside one another, the
      others' mappings and records, and every byte anyone had. */
  method MallocAmong(m: Machine, ps: seq<Process>, i: nat, size: nat) returns (ptr: nat)
    requires Community(m, ps) && i < |ps|
    requires 1 <= size <= UINT32 - BLOCK_SIZE && m.heap.CanServe(BlocksFor(size))
    modifies m`mem, m.heap`runs, m.heap.entries, ps[i].allocations
    ensures Community(m, ps)
    ensures ptr != 0 <==> Fits(old(m.heap.entries[..]), BlocksFor(size)) && HasSlot(old(ps[i].allocations[..]))
    ensures ptr == 0 ==> ps[i].allocations[..] == old(ps[i].allocations[..]) && m.heap.runs == old(m.heap.runs)
    ensures ptr != 0 ==>
      && Recorded(old(ps[i].allocations[..]), ps[i].allocations[..], Allocation(ptr, size))
      && FreshRun(old(m.heap.runs), m.heap.runs, m.base, m.heap.entries.Length, ps[i].sp, ptr, size)
    ensures forall j :: 0 <= j < |ps| ==> BytesKept(old(m.mem), m.mem, old(ps[j].allocations[..]))
    ensures forall j :: 0 <= j < |ps| && j != i ==>
      ps[j].allocations[..] == old(ps[j].allocations[..]) && SameEntries(old(m.mem), m.mem, ps[j].sp)
  {
    hide HasSlot, Usable;
    hide Partitioned, Fits, Sound, SpaceIn, OwnsPages, LiveRecords, Entry, BlocksFor, SameEntries, LiveKept, BytesKept;
    hide RemappedEntries, UnchangedAround, Cleared, FreshRun, Recorded, RecordsApart, RecordsClear, RunsApart;
    ghost var mem0, runs0, base, total := m.mem, m.heap.runs, m.base, m.heap.entries.Length;
    ghost var was := Tables(ps);
    AllSound(m, ps);
    ApartOfPartition(m.heap.entries[..], runs0);
    var p := ps[i];
    ptr := p.Malloc(size);
    ValidIsSound(p);
    ghost var mine := p.allocations[..];
    forall j | 0 <= j < |ps| && j != i
      ensures ps[j].Valid() && Beside(ps[i], ps[j]) && Beside(ps[j], ps[i])
      ensures ps[j].allocations[..] == was[j] && SameEntries(mem0, m.mem, ps[j].sp)
      ensures BytesKept(mem0, m.mem, was[j])
    {
      assert ps[j].allocations[..] == was[j];
      TakenBeside(mem0, m.mem, p.sp, ps[j].sp, was[i], mine, was[j], runs0, m.heap.runs, base, total, ptr, size);
      SoundIsValid(ps[j]);
      BesideSymmetric(ps[i], ps[j]);
    }
    OwnBytes(mem0, m.mem, p.sp, was[i], runs0, base, total);
  }

  /** Freeing likewise. */
  method FreeAmong(m: Machine, ps: seq<Process>, i: nat, ptr: nat)
    requires Community(m, ps) && i < |ps| && ptr != 0
    modifies m`mem, m.heap`runs, m.heap.entries, ps[i].allocations
    ensures Community(m, ps)
    ensures if HasRecord(old(ps[i].allocations[..]), ptr)
      then Forgotten(old(ps[i].allocations[..]), ps[i].allocations[..], ptr)
           && m.heap.runs == old(m.heap.runs) - {ptr / PAGE_SIZE - m.base}
      else ps[i].allocations[..] == old(ps[i].allocations[..]) && m.heap.runs == old(m.heap.runs)
    ensures forall j :: 0 <= j < |ps| ==> BytesKept(old(m.mem), m.mem, old(ps[j].allocations[..]))
    ensures forall j :: 0 <= j < |ps| && j != i ==>
      ps[j].allocations[..] == old(ps[j].allocations[..]) && SameEntries(old(m.mem), m.mem, ps[j].sp)
  {
    hide Absent;
    hide Partitioned, Sound, SpaceIn, OwnsPages, LiveRecords, Entry, BlocksFor, SameEntries, LiveKept, BytesKept;
    hide RemappedEntries, SameOutside, HasRecord, Forgotten, RecordsApart, RecordsClear, RunsKept, Freed, RunsApart;
    ghost var mem0, runs0, base, total := m.mem, m.heap.runs, m.base, m.heap.entries.Length;
    ghost var was := Tables(ps);
    AllSound(m, ps);
    ApartOfPartition(m.heap.entries[..], runs0);
    var p := ps[i];
    p.Free(ptr);
    ValidIsSound(p);
    OutsideIsLive(mem0, m.mem, p.sp.TablePages(), base, runs0, total);
    ghost var mine := p.allocations[..];
    forall j | 0 <= j < |ps| && j != i
      ensures ps[j].Valid() && Beside(ps[i], ps[j]) && Beside(ps[j], ps[i])
      ensures ps[j].allocations[..] == was[j] && SameEntries(mem0, m.mem, ps[j].sp)
      ensures BytesKept(mem0, m.mem, was[j])
    {
      assert ps[j].allocations[..] == was[j];
      FreedBeside(mem0, m.mem, p.sp, ps[j].sp, was[i], mine, was[j], runs0, m.heap.runs, base, total, ptr);
      SoundIsValid(ps[j]);
      BesideSymmetric(ps[i], ps[j]);
    }
    OwnBytes(mem0, m.mem, p.sp, was[i], runs0, base, total);
  }

  /** What an allocation leaves of a neighbour. */
  lemma TakenBeside(mem: seq<Byte>, after: seq<Byte>, sp: Space, other: Space, mine: seq<Allocation>,
                    now: seq<Allocation>, theirs: seq<Allocation>, runs: map<int, int>, next: map<int, int>,
                    base: int, total: nat, ptr: nat, size: nat)
    requires Sound(mem, sp, mine, runs, base, total) && Sound(mem, other, theirs, runs, base, total) && RunsApart(runs)
    requires sp.Pages() !! other.Pages() && RecordsClear(theirs, sp.Pages()) && RecordsClear(mine, other.Pages())
    requires RecordsApart(mine, theirs) && LiveKept(mem, after, sp.TablePages(), base, runs, total)
    requires if ptr == 0 then next == runs && now == mine
             else FreshRun(runs, next, base, total, sp, ptr, size) && Recorded(mine, now, Allocation(ptr, size))
    ensures Sound(after, other, theirs, next, base, total) && |mem| == UINT32 && |after| == UINT32 && other.Distinct()
    ensures SameEntries(mem, after, other) && BytesKept(mem, after, theirs)
    ensures RecordsApart(now, theirs) && RecordsClear(now, other.Pages())
  {
    hide *;
    Bystander(mem, after, sp, other, mine, theirs, runs, base, total);
    MallocKeepsRuns(theirs, other, runs, next, base, total, sp, ptr, size);
    StillSound(mem, after, other, theirs, runs, next, base, total);
    if ptr != 0 {
      NewRecordApart(mine, now, theirs, mem, other, runs, next, base, total, sp, ptr, size);
    }
  }

  /** What a free leaves of a neighbour. */
  lemma FreedBeside(mem: seq<Byte>, after: seq<Byte>, sp: Space, other: Space, mine: seq<Allocation>,
                    now: seq<Allocation>, theirs: seq<Allocation>, runs: map<int, int>, next: map<int, int>,
                    base: int, total: nat, ptr: nat)
    requires Sound(mem, sp, mine, runs, base, total) && Sound(mem, other, theirs, runs, base, total) && RunsApart(runs)
    requires sp.Pages() !! other.Pages() && RecordsClear(theirs, sp.Pages()) && RecordsClear(mine, other.Pages())
    requires RecordsApart(mine, theirs) && SameOutside(mem, after, sp.TablePages()) && ptr != 0
    requires if HasRecord(mine, ptr) then next == runs - {ptr / PAGE_SIZE - base} && Forgotten(mine, now, ptr)
             else next == runs && now == mine
    ensures Sound(after, other, theirs, next, base, total) && |mem| == UINT32 && |after| == UINT32 && other.Distinct()
    ensures SameEntries(mem, after, other) && BytesKept(mem, after, theirs)
    ensures RecordsApart(now, theirs) && RecordsClear(now, other.Pages())
  {
    hide *;
    OutsideIsLive(mem, after, sp.TablePages(), base, runs, total);
    Bystander(mem, after, sp, other, mine, theirs, runs, base, total);
    if HasRecord(mine, ptr) {
      FreeKeepsRuns(mine, theirs, mem, sp, other, runs, base, total, ptr);
      ForgottenApart(mine, now, theirs, other.Pages(), ptr);
    } else {
      SameRunsKept(theirs, other, runs, base);
    }
    StillSound(mem, after, other, theirs, runs, next, base, total);
  }

  /** The allocation tables of the processes. */
  ghost function Tables(ps: seq<Process>): (ts: seq<seq<Allocation>>)
    reads set i | 0 <= i < |ps| :: ps[i].allocations
    ensures |ts| == |ps|
    ensures forall i :: 0 <= i < |ps| ==> ts[i] == ps[i].allocations[..]
  {
    seq(|ps|, i requires 0 <= i < |ps| reads set k | 0 <= k < |ps| :: ps[k].allocations => ps[i].allocations[..])
  }

  lemma AllSound(m: Machine, ps: seq<Process>)
    requires Community(m, ps)
    ensures forall i :: 0 <= i < |ps| ==> ps[i].sp.Distinct()
    ensures forall i :: 0 <= i < |ps| ==>
      Sound(m.mem, ps[i].sp, Tables(ps)[i], m.heap.runs, m.base, m.heap.entries.Length)
  {
    hide Partitioned, LiveRecords, OwnsPages;
    forall i | 0 <= i < |ps|
      ensures Sound(m.mem, ps[i].sp, Tables(ps)[i], m.heap.runs, m.base, m.heap.entries.Length)
    {
      ValidIsSound(ps[i]);
    }
  }

  lemma StillSound(mem: seq<Byte>, after: seq<Byte>, sp: Space, allocs: seq<Allocation>, runs: map<int, int>,
                   next: map<int, int>, base: int, total: nat)
    requires Sound(mem, sp, allocs, runs, base, total) && RunsKept(allocs, sp, runs, next, base)
    requires SpaceIn(after, sp) && |after| == UINT32 && SameEntries(mem, after, sp)
    ensures Sound(after, sp, allocs, next, base, total)
  {
    hide SpaceIn, LiveRecords, OwnsPages, SameEntries, RunsKept;
    RecordsOutlive(allocs, mem, after, sp, runs, next, base, total);
  }

  lemma OwnBytes(mem: seq<Byte>, after: seq<Byte>, sp: Space, mine: seq<Allocation>, runs: map<int, int>, base: int,
                 total: nat)
    requires Sound(mem, sp, mine, runs, base, total) && RunsApart(runs)
    requires LiveKept(mem, after, sp.TablePages(), base, runs, total)
    ensures BytesKept(mem, after, mine)
  {
    hide SpaceIn, LiveRecords, LiveKept, BytesKept;
    OwnRecordsClear(mine, mem, sp, runs, base, total);
    assert OwnsPages(runs, base, sp.TablePages());
    RecordBytesFrame(mem, after, sp.TablePages(), sp, mine, runs, base, total);
  }

  lemma SameRunsKept(allocs: seq<Allocation>, sp: Space, runs: map<int, int>, base: int)
    ensures RunsKept(allocs, sp, runs, runs, base)
  {
  }

  lemma OutsideIsLive(mem: seq<Byte>, after: seq<Byte>, pages: set<int>, base: int, runs: map<int, int>, total: nat)
    requires SameOutside(mem, after, pages)
    ensures LiveKept(mem, after, pages, base, runs, total)
  {
  }

  /** A change that spares memory in use, the acting process's tables aside. */
  lemma Bystander(mem: seq<Byte>, after: seq<Byte>, sp: Space, other: Space, mine: seq<Allocation>,
                  theirs: seq<Allocation>, runs: map<int, int>, base: int, total: nat)
    requires Sound(mem, sp, mine, runs, base, total) && Sound(mem, other, theirs, runs, base, total) && RunsApart(runs)
    requires sp.Pages() !! other.Pages() && RecordsClear(theirs, sp.Pages())
    requires LiveKept(mem, after, sp.TablePages(), base, runs, total)
    ensures |mem| == UINT32 && other.Distinct()
    ensures SpaceIn(after, other) && |after| == UINT32 && SameEntries(mem, after, other)
    ensures BytesKept(mem, after, theirs)
  {
    hide SpaceIn, Entry, BlocksFor, LiveKept, BytesKept, SameEntries, LiveRecords;
    assert OwnsPages(runs, base, sp.TablePages());
    assert RecordsClear(theirs, sp.TablePages());
    SpaceOutlives(mem, after, sp.TablePages(), other, runs, base, total);
    RecordBytesFrame(mem, after, sp.TablePages(), other, theirs, runs, base, total);
  }

  lemma OwnRecordsClear(allocs: seq<Allocation>, mem: seq<Byte>, sp: Space, runs: map<int, int>, base: int, total: nat)
    requires |mem| == UINT32 && sp.Distinct() && LiveRecords(allocs, mem, sp, runs, base, total)
    ensures RecordsClear(allocs, sp.TablePages())
  {
    hide BlocksFor, Entry;
    forall i | 0 <= i < |allocs| && allocs[i].ptr != 0
      ensures allocs[i].ptr / PAGE_SIZE !in sp.TablePages()
    {
      assert LiveRecord(allocs[i], mem, sp, runs, base, total);
    }
  }

  lemma MallocKeepsRuns(theirs: seq<Allocation>, other: Space, runs: map<int, int>, next: map<int, int>, base: int,
                        total: nat, sp: Space, ptr: nat, size: nat)
    requires if ptr == 0 then next == runs else FreshRun(runs, next, base, total, sp, ptr, size)
    ensures RunsKept(theirs, other, runs, next, base)
  {
  }

  /** A fresh run is no record and no table page of the other process. */
  lemma NewRecordApart(mine: seq<Allocation>, after: seq<Allocation>, theirs: seq<Allocation>, mem: seq<Byte>,
                       other: Space, runs: map<int, int>, next: map<int, int>, base: int, total: nat, sp: Space,
                       ptr: nat, size: nat)
    requires Sound(mem, other, theirs, runs, base, total) && FreshRun(runs, next, base, total, sp, ptr, size)
    requires Recorded(mine, after, Allocation(ptr, size))
    requires RecordsApart(mine, theirs) && RecordsClear(mine, other.Pages())
    ensures RecordsApart(after, theirs) && RecordsClear(after, other.Pages())
  {
    hide BlocksFor, Entry, SpaceIn;
    var page := ptr / PAGE_SIZE;
    assert page !in other.Pages();
    forall j | 0 <= j < |theirs| && theirs[j].ptr != 0
      ensures theirs[j].ptr != ptr
    {
      assert LiveRecord(theirs[j], mem, other, runs, base, total);
    }
  }

  lemma FreeKeepsRuns(mine: seq<Allocation>, theirs: seq<Allocation>, mem: seq<Byte>, sp: Space, other: Space,
                      runs: map<int, int>, base: int, total: nat, ptr: nat)
    requires ptr != 0 && HasRecord(mine, ptr)
    requires Sound(mem, sp, mine, runs, base, total) && Sound(mem, other, theirs, runs, base, total)
    requires RecordsApart(mine, theirs) && RecordsClear(mine, other.Pages())
    ensures RunsKept(theirs, other, runs, runs - {ptr / PAGE_SIZE - base}, base)
  {
    hide BlocksFor, Entry, SpaceIn;
    var k :| 0 <= k < |mine| && mine[k].ptr == ptr;
    assert LiveRecord(mine[k], mem, sp, runs, base, total);
    forall j | 0 <= j < |theirs| && theirs[j].ptr != 0
      ensures theirs[j].ptr / PAGE_SIZE != ptr / PAGE_SIZE
    {
      assert LiveRecord(theirs[j], mem, other, runs, base, total);
      assert theirs[j].ptr != ptr;
    }
  }

  lemma ForgottenApart(mine: seq<Allocation>, after: seq<Allocation>, theirs: seq<Allocation>, pages: set<int>,
                       ptr: nat)
    requires Forgotten(mine, after, ptr) && RecordsApart(mine, theirs) && RecordsClear(mine, pages)
    ensures RecordsApart(after, theirs) && RecordsClear(after, pages)
  {
  }

  /** A new process beside the running ones: its address space is built from free
      blocks, so they share nothing. */
  method SpawnAmong(m: Machine, ps: seq<Process>, flags: nat) returns (p: Process)
    requires Community(m, ps) && flags < 256 && m.FreeCount() >= ENTRIES + 2
    modifies m`mem, m.heap`runs, m.heap.entries
    ensures fresh(p) && fresh(p.allocations) && Community(m, ps + [p])
    ensures p.allocations[..] == seq(MAX_ALLOCATIONS, _ => Allocation(0, 0)) && p.sp.Distinct() && |m.mem| == UINT32
    ensures forall a :: 0 <= a < UINT32 ==> Translate(m.mem, p.sp, a) == a && FlagsOf(m.mem, p.sp, a) == flags
    ensures forall j :: 0 <= j < |ps| ==>
      && ps[j].allocations[..] == old(ps[j].allocations[..]) && SameEntries(old(m.mem), m.mem, ps[j].sp)
      && BytesKept(old(m.mem), m.mem, old(ps[j].allocations[..]))
  {
    hide Partitioned, Sound, SpaceIn, OwnsPages, LiveRecords, Entry, BlocksFor, SameEntries, LiveKept, BytesKept;
    hide SameOutside, Added, FreeBlocks, Translate, FlagsOf, Word, RunsKept;
    ghost var mem0, runs0, base, total := m.mem, m.heap.runs, m.base, m.heap.entries.Length;
    ghost var was := Tables(ps);
    AllSound(m, ps);
    ApartOfPartition(m.heap.entries[..], runs0);
    var chunk, sp := m.New4gb(flags);
    AddedOwns(runs0, m.heap.runs, base, sp.Pages());
    SpaceDirectory(m.mem, sp);
    var directory := m.ReadWord(chunk);
    assert directory == PageWord(m.mem, sp.chunk, 0);
    p := new Process(m, chunk, directory, sp);
    forall j | 0 <= j < |ps|
      ensures ps[j].Valid() && Beside(ps[j], p) && Beside(p, ps[j])
      ensures ps[j].allocations[..] == was[j] && SameEntries(mem0, m.mem, ps[j].sp)
      ensures BytesKept(mem0, m.mem, was[j])
    {
      assert ps[j].allocations[..] == was[j];
      NewSpaceFree(m.heap.entries[..], runs0, m.heap.runs, base, total, mem0, m.mem, sp, ps[j].sp, was[j]);
      StillSound(mem0, m.mem, ps[j].sp, was[j], runs0, m.heap.runs, base, total);
      SoundIsValid(ps[j]);
    }
    assert forall i, j :: 0 <= i < |ps| && 0 <= j < |ps| && i != j ==> Beside(ps[i], ps[j]);
    CommunityAdd(m, ps, p);
  }

  lemma CommunityAdd(m: Machine, ps: seq<Process>, p: Process)
    requires m.Valid() && p.machine == m && p.Valid()
    requires forall i :: 0 <= i < |ps| ==> ps[i].machine == m && ps[i].Valid()
    requires forall i, j :: 0 <= i < |ps| && 0 <= j < |ps| && i != j ==> Beside(ps[i], ps[j])
    requires forall i :: 0 <= i < |ps| ==> Beside(ps[i], p) && Beside(p, ps[i])
    ensures Community(m, ps + [p])
  {
    hide Beside, Partitioned, LiveRecords, OwnsPages, SpaceIn;
    var more := ps + [p];
    forall i, j | 0 <= i < |more| && 0 <= j < |more| && i != j
      ensures Beside(more[i], more[j])
    {
    }
  }

  lemma SpaceDirectory(mem: seq<Byte>, sp: Space)
    requires SpaceIn(mem, sp)
    ensures |mem| == UINT32 && sp.Distinct() && PageWord(mem, sp.chunk, 0) == PAGE_SIZE * sp.dir
  {
  }

  /** Building a space on new one-block runs touches nothing in use. */
  lemma NewSpaceFree(t: seq<bv8>, runs: map<int, int>, next: map<int, int>, base: int, total: nat, mem: seq<Byte>,
                     after: seq<Byte>, sp: Space, other: Space, theirs: seq<Allocation>)
    requires Sound(mem, other, theirs, runs, base, total) && RunsApart(runs)
    requires Added(runs, next, base, sp.Pages()) && SameOutside(mem, after, sp.Pages())
    requires Partitioned(t, next)
    ensures sp.Pages() !! other.Pages() && RecordsClear(theirs, sp.Pages()) && RunsKept(theirs, other, runs, next, base)
    ensures SpaceIn(after, other) && |after| == UINT32 && other.Distinct() && SameEntries(mem, after, other)
    ensures BytesKept(mem, after, theirs)
  {
    hide SpaceIn, Entry, BlocksFor, SameEntries, BytesKept, SameOutside, LiveRecords, Partitioned;
    ApartOfPartition(t, next);
    forall x | x in sp.Pages()
      ensures x !in other.Pages()
    {
      assert x - base in runs ==> x - base + base !in sp.Pages();
    }
    OldRunsKept(theirs, mem, other, runs, next, base, total, sp.Pages());
    RecordsOutlive(theirs, mem, mem, other, runs, next, base, total);
    OutsideIsLive(mem, after, sp.Pages(), base, next, total);
    SpaceOutlives(mem, after, sp.Pages(), other, next, base, total);
    RecordBytesFrame(mem, after, sp.Pages(), other, theirs, next, base, total);
  }

  lemma OldRunsKept(theirs: seq<Allocation>, mem: seq<Byte>, other: Space, runs: map<int, int>, next: map<int, int>,
                    base: int, total: nat, pages: set<int>)
    requires |mem| == UINT32 && other.Distinct() && LiveRecords(theirs, mem, other, runs, base, total)
    requires Added(runs, next, base, pages)
    ensures RunsKept(theirs, other, runs, next, base) && RecordsClear(theirs, pages) && SameEntries(mem, mem, other)
  {
    hide BlocksFor, Entry;
    forall i | 0 <= i < |theirs| && theirs[i].ptr != 0
      ensures theirs[i].ptr / PAGE_SIZE !in pages
    {
      assert LiveRecord(theirs[i], mem, other, runs, base, total);
      var s := theirs[i].ptr / PAGE_SIZE - base;
      assert s in runs && s + base !in pages;
    }
  }

  // ---------------------------------------------------------- whole runs

  datatype Action = Start(flags: nat) | Allocate(who: nat, size: nat) | Release(who: nat, ptr: nat)

  /** Any sequence of starts, allocations and frees by any of the processes: all
      stay valid and pairwise beside one another, and every byte of every live record
      is usable. What each action does is in `Act`. */
  method RunActions(m: Machine, actions: seq<Action>) returns (ps: seq<Process>)
    requires m.Valid()
    modifies m`mem, m.heap`runs, m.heap.entries
    ensures Community(m, ps) && fresh(ps) && forall i :: 0 <= i < |ps| ==> fresh(ps[i].allocations)
    ensures forall i :: 0 <= i < |ps| ==> RecordsUsable(m.mem, ps[i].sp, ps[i].allocations[..])
  {
    hide Community;
    ps := [];
    NoProcesses(m);
    for k := 0 to |actions|
      invariant Community(m, ps) && fresh(ps) && forall i :: 0 <= i < |ps| ==> fresh(ps[i].allocations)
    {
      ps := Act(m, ps, actions[k]);
    }
    forall i | 0 <= i < |ps|
      ensures RecordsUsable(m.mem, ps[i].sp, ps[i].allocations[..])
    {
      CommunityUsable(m, ps, i);
    }
  }

  /** Every byte of every live record is usable. */
  ghost predicate RecordsUsable(mem: seq<Byte>, sp: Space, allocs: seq<Allocation>) {
    && |mem| == UINT32 && sp.Distinct()
    && forall k, x :: 0 <= k < |allocs| && 0 <= x < UINT32 && InRecord(allocs[k], x) ==> Usable(mem, sp, x)
  }

  lemma CommunityUsable(m: Machine, ps: seq<Process>, i: int)
    requires Community(m, ps) && 0 <= i < |ps|
    ensures RecordsUsable(m.mem, ps[i].sp, ps[i].allocations[..])
  {
    ValidIsSound(ps[i]);
    hide Partitioned, OwnsPages, SpaceIn, LiveRecords, Usable, Beside;
    var p, allocs := ps[i], ps[i].allocations[..];
    forall k, x | 0 <= k < |allocs| && 0 <= x < UINT32 && InRecord(allocs[k], x)
      ensures Usable(m.mem, p.sp, x)
    {
      p.RecordsUsable(k, x);
    }
  }

  lemma CommunityMachine(m: Machine, ps: seq<Process>)
    requires Community(m, ps)
    ensures m.Valid()
  {
  }

  lemma NoProcesses(m: Machine)
    requires m.Valid()
    ensures Community(m, [])
  {
  }

  /** One action. A start needs 1026 free blocks. An allocation and a free do what
      they do for the process named; a request the heap could not serve without
      overrunning its table, a null pointer and a process that does not exist are
      passed over. */
  method Act(m: Machine, ps: seq<Process>, action: Action) returns (now: seq<Process>)
    requires Community(m, ps)
    modifies m`mem, m.heap`runs, m.heap.entries, set i | 0 <= i < |ps| :: ps[i].allocations
    ensures Community(m, now) && ps <= now && |now| <= |ps| + 1
    ensures |now| > |ps| ==> fresh(now[|ps|]) && fresh(now[|ps|].allocations)
    ensures |now| > |ps| <==> action.Start? && action.flags < 256 && old(m.FreeCount()) >= 1026
    ensures action.Allocate? && action.who < |ps| && 1 <= action.size <= UINT32 - BLOCK_SIZE ==>
      var table := old(ps[action.who].allocations[..]);
      if Fits(old(m.heap.entries[..]), BlocksFor(action.size)) && HasSlot(table)
      then exists ptr :: ptr != 0 && Recorded(table, ps[action.who].allocations[..], Allocation(ptr, action.size))
      else ps[action.who].allocations[..] == table
    ensures action.Release? && action.who < |ps| && action.ptr != 0 ==>
      var table := old(ps[action.who].allocations[..]);
      if HasRecord(table, action.ptr) then Forgotten(table, ps[action.who].allocations[..], action.ptr)
      else ps[action.who].allocations[..] == table
  {
    hide Community, BytesKept, SameEntries, BlocksFor, Partitioned, LastTaken, FreeBlocks, FreshRun, Recorded;
    hide HasRecord, Forgotten, HasSlot, Translate, FlagsOf;
    CommunityMachine(m, ps);
    now := ps;
    match action {
      case Start(flags) =>
        var free := m.CountFree();
        if flags < 256 && free >= ENTRIES + 2 {
          var p := SpawnAmong(m, ps, flags);
          now := ps + [p];
        }
      case Allocate(who, size) =>
        if who < |ps| && 1 <= size <= UINT32 - BLOCK_SIZE {
          var ok := m.heap.CanServeNow(BlocksFor(size));
          if ok {
            var ptr := MallocAmong(m, ps, who, size);
          }
        }
      case Release(who, ptr) =>
        if who < |ps| && ptr != 0 {
          FreeAmong(m, ps, who, ptr);
        }
    }
  }
}
