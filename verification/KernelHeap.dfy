/**
 The kernel heap: a table with one byte per 4096-byte block.

 A taken run of blocks carries IS_FIRST on its first block and HAS_NEXT on all
 but its last. `Partitioned` ties the table to the runs it stands for.
 */
module KernelHeap {
  import opened Status
  import opened Bytes

  const BLOCK_SIZE := 4096

  const FREE: bv8 := 0x00
  const TAKEN: bv8 := 0x01
  const HAS_NEXT: bv8 := 0x80
  const IS_FIRST: bv8 := 0x40

  function EntryType(e: bv8): bv8 {
    e & 0x0F
  }

  // ------------------------------------------------------------- tables

  /** The entry of block `i` in a run of `n` blocks from `s`. */
  ghost function Mark(s: int, n: int, i: int): bv8 {
    if i == s then (if n > 1 then 0xC1 else 0x41)
    else if i == s + n - 1 then 0x01 else 0x81
  }

  ghost predicate RunAt(t: seq<bv8>, s: int, n: int) {
    && 1 <= n && 0 <= s && s + n <= |t|
    && forall i :: s <= i < s + n ==> t[i] == Mark(s, n, i)
  }

  /** Block `i` belongs to some run; runs map their first block to their length. */
  ghost predicate InRun(runs: map<int, int>, i: int) {
    exists s :: s in runs && s <= i < s + runs[s]
  }

  ghost predicate RunsApart(runs: map<int, int>) {
    forall s, u :: s in runs && u in runs && s < u ==> s + runs[s] <= u
  }

  ghost predicate Partitioned(t: seq<bv8>, runs: map<int, int>) {
    && (forall s :: s in runs ==> RunAt(t, s, runs[s]))
    && RunsApart(runs)
    && (forall i :: 0 <= i < |t| && !InRun(runs, i) ==> t[i] == FREE)
  }

  ghost predicate AllFree(t: seq<bv8>, s: int, n: int) {
    && 0 <= s && 0 <= n && s + n <= |t|
    && forall i :: s <= i < s + n ==> EntryType(t[i]) == FREE
  }

  ghost predicate Fits(t: seq<bv8>, n: int) {
    exists s :: AllFree(t, s, n)
  }

  ghost predicate LastTaken(t: seq<bv8>) {
    |t| > 0 ==> EntryType(t[|t| - 1]) != FREE
  }

  ghost function Taken(t: seq<bv8>, s: int, n: int): (u: seq<bv8>)
    ensures |u| == |t|
  {
    seq(|t|, i requires 0 <= i < |t| => if s <= i < s + n then Mark(s, n, i) else t[i])
  }

  ghost function Freed(t: seq<bv8>, s: int, n: int): (u: seq<bv8>)
    ensures |u| == |t|
  {
    seq(|t|, i requires 0 <= i < |t| => if s <= i < s + n then FREE else t[i])
  }

  /** In a partitioned table an entry counts as free exactly outside the runs. */
  lemma FreeIffOutside(t: seq<bv8>, runs: map<int, int>, i: int)
    requires Partitioned(t, runs) && 0 <= i < |t|
    ensures EntryType(t[i]) == FREE <==> !InRun(runs, i)
    ensures EntryType(t[i]) == FREE <==> t[i] == FREE
  {
    if InRun(runs, i) {
      var s :| s in runs && s <= i < s + runs[s];
      assert RunAt(t, s, runs[s]);
    }
  }

  /** The runs determine the table. */
  lemma TableDetermined(t: seq<bv8>, u: seq<bv8>, runs: map<int, int>)
    requires |t| == |u| && Partitioned(t, runs) && Partitioned(u, runs)
    ensures t == u
  {
    forall i | 0 <= i < |t|
      ensures t[i] == u[i]
    {
      if InRun(runs, i) {
        var s :| s in runs && s <= i < s + runs[s];
        assert RunAt(t, s, runs[s]) && RunAt(u, s, runs[s]);
      }
    }
  }

  /** Free blocks lie apart from every run. */
  lemma FreeApart(t: seq<bv8>, runs: map<int, int>, s: int, n: int)
    requires Partitioned(t, runs) && n >= 1 && AllFree(t, s, n)
    ensures s !in runs && forall r :: r in runs ==> r + runs[r] <= s || s + n <= r
  {
    hide Mark, EntryType;
    forall r | r in runs
      ensures r + runs[r] <= s || s + n <= r
    {
      assert RunAt(t, r, runs[r]);
      if r < s + n && s < r + runs[r] {
        var i := if r < s then s else r;
        assert InRun(runs, i);
        FreeIffOutside(t, runs, i);
      }
    }
  }

  /** Taking free blocks adds one run, apart from all others. */
  lemma TakenKeeps(t: seq<bv8>, runs: map<int, int>, s: int, n: int)
    requires Partitioned(t, runs) && n >= 1 && AllFree(t, s, n)
    ensures Partitioned(Taken(t, s, n), runs[s := n])
    ensures s !in runs
  {
    hide Mark, EntryType;
    FreeApart(t, runs, s, n);
    var u, after := Taken(t, s, n), runs[s := n];
    forall r | r in runs
      ensures RunAt(u, r, runs[r])
    {
      assert RunAt(t, r, runs[r]);
    }
    forall i | 0 <= i < |u| && !InRun(after, i)
      ensures u[i] == FREE
    {
      assert s in after && after[s] == n;
      assert forall r :: r in runs ==> r in after && after[r] == runs[r];
    }
  }

  /** Freeing a run removes exactly it. */
  lemma FreedKeeps(t: seq<bv8>, runs: map<int, int>, s: int)
    requires Partitioned(t, runs) && s in runs
    ensures Partitioned(Freed(t, s, runs[s]), runs - {s})
  {
    var u, after := Freed(t, s, runs[s]), runs - {s};
    assert RunAt(t, s, runs[s]);
    forall r | r in after
      ensures RunAt(u, r, after[r])
    {
      assert RunAt(t, r, runs[r]);
    }
    forall i | 0 <= i < |u| && !InRun(after, i)
      ensures u[i] == FREE
    {
      if InRun(runs, i) {
        var r :| r in runs && r <= i < r + runs[r];
        assert r in after || r == s;
      }
    }
  }

  /** Freeing what was just taken restores the table. */
  lemma FreeUndoesMalloc(t: seq<bv8>, runs: map<int, int>, s: int, n: int)
    requires Partitioned(t, runs) && n >= 1 && AllFree(t, s, n)
    ensures Freed(Taken(t, s, n), s, n) == t
  {
    forall i | 0 <= i < |t|
      ensures Freed(Taken(t, s, n), s, n)[i] == t[i]
    {
      FreeIffOutside(t, runs, i);
    }
  }

  // ---------------------------------------------------------- whole runs

  datatype Op = Malloc(at: int, blocks: int) | Release(at: int)

  ghost predicate Enabled(t: seq<bv8>, runs: map<int, int>, op: Op) {
    match op
    case Malloc(at, blocks) => blocks >= 1 && AllFree(t, at, blocks)
    case Release(at) => at in runs
  }

  ghost predicate Runs(t: seq<bv8>, runs: map<int, int>, ops: seq<Op>, u: seq<bv8>, after: map<int, int>)
    decreases |ops|
  {
    if ops == [] then u == t && after == runs
    else
      && Enabled(t, runs, ops[0])
      && match ops[0]
         case Malloc(at, blocks) => Runs(Taken(t, at, blocks), runs[at := blocks], ops[1..], u, after)
         case Release(at) => Runs(Freed(t, at, runs[at]), runs - {at}, ops[1..], u, after)
  }

  /** Over every run of allocations and frees the table stays a partition
      into disjoint runs, and it is a function of the live runs alone. */
  lemma {:induction false} EveryRunPartitions(t: seq<bv8>, runs: map<int, int>, ops: seq<Op>,
                                              u: seq<bv8>, after: map<int, int>)
    requires Partitioned(t, runs) && Runs(t, runs, ops, u, after)
    ensures Partitioned(u, after) && |u| == |t|
    ensures after == runs ==> u == t
    decreases |ops|
  {
    if ops != [] {
      match ops[0] {
        case Malloc(at, blocks) =>
          TakenKeeps(t, runs, at, blocks);
          EveryRunPartitions(Taken(t, at, blocks), runs[at := blocks], ops[1..], u, after);
        case Release(at) =>
          FreedKeeps(t, runs, at);
          EveryRunPartitions(Freed(t, at, runs[at]), runs - {at}, ops[1..], u, after);
      }
    }
    if after == runs {
      TableDetermined(t, u, runs);
    }
  }

  // -------------------------------------------------------- the allocator

  /** Rounding up wraps in the last block below 2^32. */
  function AlignUp(val: nat): (r: nat)
    requires val < UINT32
    ensures r % BLOCK_SIZE == 0
    ensures val <= UINT32 - BLOCK_SIZE ==> val <= r < val + BLOCK_SIZE
    ensures val > UINT32 - BLOCK_SIZE ==> r == 0
  {
    if val % BLOCK_SIZE == 0 then val else (val - val % BLOCK_SIZE + BLOCK_SIZE) % UINT32
  }

  function BlocksFor(size: nat): nat
    requires size < UINT32
  {
    AlignUp(size) / BLOCK_SIZE
  }

  /** What the scan for `n` blocks returns. */
  ghost predicate StartBlock(t: seq<bv8>, n: nat, bs: int) {
    if n >= 1 && Fits(t, n) then
      AllFree(t, bs, n) && forall s :: 0 <= s < bs ==> !AllFree(t, s, n)
    else if LastTaken(t) then
      bs == -ENOMEM
    else
      0 <= bs < |t| && AllFree(t, bs, |t| - bs) && (bs > 0 ==> EntryType(t[bs - 1]) != FREE)
  }

  class Heap {
    const entries: array<bv8>
    const saddr: nat
    /** The live runs of blocks. */
    ghost var runs: map<int, int>

    ghost predicate Valid()
      reads this, entries
    {
      && saddr % BLOCK_SIZE == 0 && 0 < saddr
      && saddr + BLOCK_SIZE * entries.Length < UINT32
      && BLOCK_SIZE * entries.Length < 0x8000_0000
      && Partitioned(entries[..], runs)
    }

    /** A fresh heap is all free. */
    constructor (ptr: nat, total: nat)
      requires ptr % BLOCK_SIZE == 0 && 0 < ptr
      requires ptr + BLOCK_SIZE * total < UINT32 && BLOCK_SIZE * total < 0x8000_0000
      ensures Valid() && saddr == ptr && entries.Length == total && runs == map[] && fresh(entries)
    {
      saddr := ptr;
      entries := new bv8[total](_ => FREE);
      runs := map[];
    }

    /** The lowest start of `n` free blocks; failing that, the start of a free
        tail of the table, or -ENOMEM when the last block is taken. */
    method GetStartBlock(n: nat) returns (bs: int)
      ensures StartBlock(entries[..], n, bs)
    {
      hide AllFree, EntryType;
      ghost var t := entries[..];
      var bc := 0;
      bs := -1;
      var i := 0;
      while i < entries.Length
        invariant 0 <= i <= entries.Length && ScanState(t, n, i, bs, bc)
      {
        ScanStep(t, n, i, bs, bc);
        if EntryType(entries[i]) != FREE {
          bc := 0;
          bs := -1;
          i := i + 1;
          continue;
        }
        if bs == -1 {
          bs := i;
        }
        bc := bc + 1;
        if bc == n {
          ScanFound(t, n, i, bs);
          return;
        }
        i := i + 1;
      }
      ScanEnd(t, n, bs, bc);
      if bs == -1 {
        return -ENOMEM;
      }
    }

    function BlockToAddress(block: nat): nat {
      saddr + block * BLOCK_SIZE
    }

    function AddressToBlock(address: nat): int
      requires saddr <= address
    {
      (address - saddr) / BLOCK_SIZE
    }

    method MarkTaken(start: nat, total: nat)
      requires start + total <= entries.Length
      modifies entries
      ensures entries[..] == Taken(old(entries[..]), start, total)
    {
      var end := start + total - 1;
      var entry := TAKEN | IS_FIRST;
      if total > 1 {
        entry := entry | HAS_NEXT;
      }
      var i: int := start;
      while i <= end
        invariant start <= i <= end + 1
        invariant i <= end ==> entry == Mark(start, total, i)
        invariant forall k :: start <= k < i ==> entries[k] == Mark(start, total, k)
        invariant forall k :: 0 <= k < entries.Length && !(start <= k < i) ==> entries[k] == old(entries[k])
      {
        entries[i] := entry;
        entry := TAKEN;
        if i != end - 1 {
          entry := entry | HAS_NEXT;
        }
        i := i + 1;
      }
    }

    /** Clears blocks as far as their HAS_NEXT flags reach. */
    method MarkFree(start: nat)
      modifies entries
      ensures entries[..] == Freed(old(entries[..]), start, Reach(old(entries[..]), start))
    {
      hide Reach;
      ghost var t := entries[..];
      var i: int := start;
      ReachStep(t, i);
      while i < entries.Length
        invariant start <= i && (i <= entries.Length || i == start)
        invariant Reach(t, start) == i - start + Reach(t, i)
        invariant forall k :: start <= k < i ==> entries[k] == FREE
        invariant forall k :: 0 <= k < entries.Length && !(start <= k < i) ==> entries[k] == t[k]
      {
        ReachStep(t, i);
        var entry := entries[i];
        entries[i] := FREE;
        if entry & HAS_NEXT == 0 {
          return;
        }
        i := i + 1;
      }
      ReachStep(t, i);
    }

    /** No request for `n` blocks can make the driver mark past its table. */
    ghost predicate CanServe(n: nat)
      reads entries
    {
      n == 0 || Fits(entries[..], n) || LastTaken(entries[..])
    }

    /** Whether a request can be served, by the same scan. */
    method CanServeNow(n: nat) returns (ok: bool)
      ensures ok == CanServe(n)
    {
      hide StartBlock, AllFree;
      var start := GetStartBlock(n);
      OverrunIff(entries[..], n, start);
      ok := n == 0 || start < 0 || start + n <= entries.Length;
    }

    /** Allocation. A served request gets the lowest fitting run; a full heap
        gives 0. A request of no blocks (size 0, or above 2^32 - 4096) gets a
        pointer to blocks that stay free. */
    method Malloc(size: nat) returns (address: nat)
      requires Valid() && size < UINT32 && CanServe(BlocksFor(size))
      modifies this`runs, entries
      ensures Valid()
      ensures var n := BlocksFor(size); var t := old(entries[..]);
        if n >= 1 && Fits(t, n) then
          && address >= saddr && (address - saddr) % BLOCK_SIZE == 0
          && var s := (address - saddr) / 4096;
             && AllFree(t, s, n) && (forall r :: 0 <= r < s ==> !AllFree(t, r, n))
             && s !in old(runs) && runs == old(runs)[s := n] && entries[..] == Taken(t, s, n)
        else
          && runs == old(runs) && entries[..] == t
          && (address == 0 <==> LastTaken(t))
          && (address != 0 ==> address >= saddr && StartBlock(t, n, AddressToBlock(address)))
    {
      hide AllFree, Mark, EntryType, Partitioned;
      var n := BlocksFor(size);
      var start := GetStartBlock(n);
      if start < 0 {
        NoNegativeStart(entries[..], n, start);
        return 0;
      }
      address := BlockToAddress(start);
      if Fits(entries[..], n) && n >= 1 {
        AllFreeBounds(entries[..], start, n);
        TakenKeeps(entries[..], runs, start, n);
        runs := runs[start := n];
      }
      MarkTaken(start, n);
      NothingTaken(old(entries[..]), start);
    }

    /** Freeing a live pointer clears exactly its run; a pointer to a free block, or
        past the table, changes nothing; one into the middle of a run spoils the
        table: it is no partition into runs any more. */
    method Free(address: nat)
      requires Valid() && saddr <= address
      modifies this`runs, entries
      ensures var s := (address - saddr) / 4096;
        && (s in old(runs) ==>
              Valid() && runs == old(runs) - {s} && entries[..] == Freed(old(entries[..]), s, old(runs)[s]))
        && (!InRun(old(runs), s) ==> Valid() && runs == old(runs) && entries[..] == old(entries[..]))
        && (s !in old(runs) && InRun(old(runs), s) ==> forall r :: !Partitioned(entries[..], r))
    {
      hide Partitioned, Freed, Reach, InRun;
      var s := AddressToBlock(address);
      if s in runs {
        FreedKeeps(entries[..], runs, s);
        HeadReaches(entries[..], runs, s);
      } else if InRun(runs, s) {
        InteriorFree(entries[..], runs, s);
      } else {
        FreeBlockStays(entries[..], runs, s);
      }
      MarkFree(s);
      runs := if s in runs then runs - {s} else runs;
    }
  }

  /** How many blocks from `i` on the HAS_NEXT flags tie together. */
  ghost function Reach(t: seq<bv8>, i: int): (n: nat)
    requires 0 <= i
    decreases |t| - i
  {
    if i >= |t| then 0 else if t[i] & HAS_NEXT == 0 then 1 else 1 + Reach(t, i + 1)
  }

  lemma ReachStep(t: seq<bv8>, i: int)
    requires 0 <= i
    ensures Reach(t, i) == if i >= |t| then 0 else if t[i] & HAS_NEXT == 0 then 1 else 1 + Reach(t, i + 1)
  {
  }

  /** Inside a run the flags reach to its end. */
  lemma {:induction false} RunReach(t: seq<bv8>, s: int, n: int, i: int)
    requires RunAt(t, s, n) && s <= i < s + n
    ensures Reach(t, i) == s + n - i
    decreases s + n - i
  {
    assert t[i] == Mark(s, n, i);
    if i + 1 < s + n {
      RunReach(t, s, n, i + 1);
    }
  }

  lemma HeadReaches(t: seq<bv8>, runs: map<int, int>, s: int)
    requires Partitioned(t, runs) && s in runs
    ensures s >= 0 && InRun(runs, s) && Reach(t, s) == runs[s]
  {
    assert RunAt(t, s, runs[s]);
    RunReach(t, s, runs[s], s);
  }

  lemma FreeBlockStays(t: seq<bv8>, runs: map<int, int>, s: int)
    requires Partitioned(t, runs) && s >= 0 && !InRun(runs, s)
    ensures Freed(t, s, Reach(t, s)) == t
  {
    if s < |t| {
      assert t[s] == FREE && Reach(t, s) == 1;
    }
  }

  /** Clearing the rest of a run from its middle on leaves a block that claims a
      successor in front of a free one, which no run can explain. */
  lemma InteriorFree(t: seq<bv8>, runs: map<int, int>, i: int)
    requires Partitioned(t, runs) && i >= 0 && i !in runs && InRun(runs, i)
    ensures forall r :: !Partitioned(Freed(t, i, Reach(t, i)), r)
  {
    var s :| s in runs && s <= i < s + runs[s];
    assert RunAt(t, s, runs[s]);
    RunReach(t, s, runs[s], i);
    var u := Freed(t, i, Reach(t, i));
    assert u[i - 1] == t[i - 1] == Mark(s, runs[s], i - 1) && u[i] == FREE;
    forall r
      ensures !Partitioned(u, r)
    {
      if Partitioned(u, r) {
        SuccessorTaken(u, r, i);
      }
    }
  }

  /** In a partitioned table the block behind a HAS_NEXT flag is not free. */
  lemma SuccessorTaken(t: seq<bv8>, runs: map<int, int>, i: int)
    requires Partitioned(t, runs) && 1 <= i < |t| && t[i - 1] & HAS_NEXT != 0
    ensures t[i] != FREE
  {
    var s :| s in runs && s <= i - 1 < s + runs[s];
    assert RunAt(t, s, runs[s]);
    assert t[i - 1] == Mark(s, runs[s], i - 1);
    assert t[i] == Mark(s, runs[s], i);
  }

  // ------------------------------------------------------- the scan's proof

  /** After `i` entries: the free run that reaches back from `i`, and no fit so far. */
  ghost predicate ScanState(t: seq<bv8>, n: nat, i: int, bs: int, bc: int) {
    && 0 <= i <= |t|
    && (bs == -1 ==> bc == 0 && (i > 0 ==> EntryType(t[i - 1]) != FREE))
    && (bs != -1 ==> 0 <= bs < i && bc == i - bs && AllFree(t, bs, i - bs) && (bs > 0 ==> EntryType(t[bs - 1]) != FREE))
    && (n >= 1 ==> bc < n && forall s :: 0 <= s && s + n <= i ==> !AllFree(t, s, n))
  }

  lemma ScanStep(t: seq<bv8>, n: nat, i: int, bs: int, bc: int)
    requires ScanState(t, n, i, bs, bc) && i < |t|
    ensures EntryType(t[i]) != FREE ==> ScanState(t, n, i + 1, -1, 0)
    ensures EntryType(t[i]) == FREE ==>
      var b := if bs == -1 then i else bs;
      && AllFree(t, b, i + 1 - b) && bc + 1 == i + 1 - b
      && (bc + 1 != n ==> ScanState(t, n, i + 1, b, bc + 1))
      && (bc + 1 == n ==> forall s :: 0 <= s < b ==> !AllFree(t, s, n))
  {
    if EntryType(t[i]) == FREE {
      var b := if bs == -1 then i else bs;
      assert b > 0 ==> EntryType(t[b - 1]) != FREE;
    }
  }

  lemma ScanFound(t: seq<bv8>, n: nat, i: int, bs: int)
    requires 0 <= bs <= i < |t| && n == i + 1 - bs && AllFree(t, bs, n)
    requires forall s :: 0 <= s < bs ==> !AllFree(t, s, n)
    ensures StartBlock(t, n, bs)
  {
  }

  lemma ScanEnd(t: seq<bv8>, n: nat, bs: int, bc: int)
    requires ScanState(t, n, |t|, bs, bc)
    ensures StartBlock(t, n, if bs == -1 then -ENOMEM else bs)
  {
    if bs != -1 {
      assert EntryType(t[|t| - 1]) == FREE;
    }
  }

  /** The scan returns a run that the marking would overrun exactly when no run
      fits and the table ends in free blocks. */
  lemma OverrunIff(t: seq<bv8>, n: nat, bs: int)
    requires StartBlock(t, n, bs)
    ensures bs >= 0 && bs + n > |t| <==> n >= 1 && !Fits(t, n) && !LastTaken(t)
  {
    assert 0 <= bs && bs + n <= |t| && AllFree(t, bs, |t| - bs) ==> AllFree(t, bs, n);
  }

  /** That does happen: two blocks asked of a table whose last block alone is free. */
  lemma ScanOverruns()
    ensures StartBlock([0x41, 0x00], 2, 1) && 1 + 2 > |[0x41 as bv8, 0x00]|
  {
    var t: seq<bv8> := [0x41, 0x00];
    assert t[0] == 0x41 && t[1] == 0x00;
    assert EntryType(t[0]) != FREE && EntryType(t[1]) == FREE;
    assert AllFree(t, 1, 1);
  }

  /** A request for one block never overruns. */
  lemma OneBlockServed(t: seq<bv8>)
    ensures Fits(t, 1) || LastTaken(t)
  {
    if !LastTaken(t) {
      assert AllFree(t, |t| - 1, 1);
    }
  }

  lemma NoNegativeStart(t: seq<bv8>, n: nat, start: int)
    requires StartBlock(t, n, start) && start < 0
    ensures LastTaken(t) && !(n >= 1 && Fits(t, n))
  {
  }

  lemma AllFreeBounds(t: seq<bv8>, s: int, n: int)
    requires AllFree(t, s, n)
    ensures 0 <= s && s + n <= |t|
  {
  }

  lemma NothingTaken(t: seq<bv8>, s: int)
    ensures Taken(t, s, 0) == t
  {
  }
}
