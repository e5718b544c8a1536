/**
 Copying a string out of a task's address space.

 The kernel borrows one heap page, maps it to itself in the task's tables,
 copies the string onto it under the task's mapping, puts the old entry back
 and copies from there into its own buffer.
 */
module TaskString {
  import opened Status
  import opened Bytes
  import opened KernelHeap
  import opened PageTables
  import opened Paging
  import opened ProcessMemory

  lemma TranslateInRange(mem: seq<Byte>, sp: Space, v: int)
    requires |mem| == UINT32 && sp.Distinct() && 0 <= v < UINT32
    ensures 0 <= Translate(mem, sp, v) < UINT32
  {
    hide Entry;
  }

  /** The byte a task sees at a virtual address. */
  ghost function UserByte(mem: seq<Byte>, sp: Space, v: int): Byte
    requires |mem| == UINT32 && sp.Distinct() && 0 <= v < UINT32
  {
    TranslateInRange(mem, sp, v);
    mem[Translate(mem, sp, v)]
  }

  /** What a task sees in `n` bytes from `v` on. */
  ghost function View(mem: seq<Byte>, sp: Space, v: int, n: nat): (s: seq<Byte>)
    requires |mem| == UINT32 && sp.Distinct() && 0 <= v && v + n <= UINT32
    ensures |s| == n
  {
    seq<Byte>(n, k requires 0 <= k < n => UserByte(mem, sp, v + k))
  }

  /** The string a task has at `v`, cut to `limit` bytes. */
  ghost function Str(mem: seq<Byte>, sp: Space, v: int, limit: nat): (s: seq<Byte>)
    requires |mem| == UINT32 && sp.Distinct() && 0 <= v && v + limit <= UINT32
    ensures |s| <= limit && 0 !in s
  {
    CutAtNul(View(mem, sp, v, limit))
  }

  /** No byte of the string, terminator included, lies on the borrowed page by its
      virtual or physical address, or in the page tables themselves. */
  ghost predicate Avoids(mem: seq<Byte>, sp: Space, v: int, limit: nat, page: int)
    requires |mem| == UINT32 && sp.Distinct() && 0 <= v && v + limit <= UINT32
  {
    forall k :: 0 <= k <= |Str(mem, sp, v, limit)| && k < limit ==> AvoidsAt(mem, sp, v, k, page)
  }

  ghost predicate AvoidsAt(mem: seq<Byte>, sp: Space, v: int, k: int, page: int)
    requires |mem| == UINT32 && sp.Distinct() && 0 <= v + k < UINT32
  {
    && (v + k) / PAGE_SIZE != page
    && Translate(mem, sp, v + k) / PAGE_SIZE !in sp.TablePages() + {page}
  }

  /** The page of byte `k` from `v` on is present; touching any other one faults. */
  ghost predicate Present(mem: seq<Byte>, sp: Space, v: int, k: int)
    requires |mem| == UINT32 && sp.Distinct() && 0 <= v + k < UINT32
  {
    Entry(mem, sp, (v + k) / PAGE_SIZE) % 2 == 1
  }

  /** Every byte of the string, terminator included, lies on a present page. */
  ghost predicate Readable(mem: seq<Byte>, sp: Space, v: int, limit: nat)
    requires |mem| == UINT32 && sp.Distinct() && 0 <= v && v + limit <= UINT32
  {
    forall k :: 0 <= k <= |Str(mem, sp, v, limit)| && k < limit ==> Present(mem, sp, v, k)
  }

  /** Reads one byte under the task's mapping, unless its page is not present. */
  method Peek(m: Machine, directory: nat, virt: nat, i: nat, ghost sp: Space) returns (fault: bool, b: Byte)
    requires SpaceIn(m.mem, sp) && directory == PAGE_SIZE * sp.dir && virt + i < UINT32
    ensures |m.mem| == UINT32 && sp.Distinct()
    ensures fault <==> !Present(m.mem, sp, virt, i)
    ensures !fault ==> b == UserByte(m.mem, sp, virt + i)
  {
    hide Entry, SpaceIn, Translate;
    SpaceSize(m.mem, sp);
    var entry := m.PagingGet(directory, PageMask(virt + i), sp);
    if entry % 2 == 0 {
      return true, 0;
    }
    var from := m.GetPhysicalAddress(directory, virt + i, sp);
    TranslateInRange(m.mem, sp, virt + i);
    return false, m.mem[from];
  }

  /** Copies up to `max - 1` bytes and a terminator under the task's mapping.
      The first byte on a page that is not present faults and ends it. */
  method StrncpyUser(m: Machine, directory: nat, tmp: nat, virt: nat, max: nat, ghost sp: Space, ghost page: int)
    returns (fault: bool)
    requires SpaceIn(m.mem, sp) && directory == PAGE_SIZE * sp.dir
    requires 0 <= page < PAGES && tmp == PAGE_SIZE * page && page !in sp.Pages()
    requires Entry(m.mem, sp, page) == PAGE_SIZE * page + USER_FLAGS
    requires 1 <= max < PAGE_SIZE && virt + max <= UINT32
    modifies m`mem
    ensures SpaceIn(m.mem, sp) && SameEntries(old(m.mem), m.mem, sp) && SameOutside(old(m.mem), m.mem, {page})
    ensures Avoids(old(m.mem), sp, virt, max - 1, page) ==>
      && (fault <==> !Readable(old(m.mem), sp, virt, max - 1))
      && (!fault ==> CString(m.mem, tmp, Str(old(m.mem), sp, virt, max - 1)))
  {
    hide Entry, SpaceIn, Str, Avoids, Translate, SameOutside, UserByte, View, CutAtNul, Present, SameEntries;
    ghost var m0 := m.mem;
    SpaceSize(m0, sp);
    ghost var s, ok := Str(m0, sp, virt, max - 1), Avoids(m0, sp, virt, max - 1, page);
    SameOutsideSelf(m0, {page});
    SameEntriesSelf(m0, sp);
    var i := 0;
    while i < max - 1
      invariant 0 <= i <= max - 1
      invariant SpaceIn(m.mem, sp) && |m.mem| == UINT32
      invariant SameEntries(m0, m.mem, sp) && SameOutside(m0, m.mem, {page})
      invariant ok ==> i <= |s| && forall k :: 0 <= k < i ==> m.mem[tmp + k] == s[k] && Present(m0, sp, virt, k)
    {
      var b;
      fault, b := Peek(m, directory, virt, i, sp);
      PresentSame(m0, m.mem, sp, virt, i);
      if fault {
        return;
      }
      if ok {
        SeesSame(m0, m.mem, sp, virt, max - 1, page, i);
      }
      if b == 0 {
        break;
      }
      Poke(m, directory, tmp, i, b, sp, page, m0);
      i := i + 1;
    }
    fault := false;
    Poke(m, directory, tmp, i, 0, sp, page, m0);
  }

  lemma SameEntriesSelf(mem: seq<Byte>, sp: Space)
    requires |mem| == UINT32 && sp.Distinct()
    ensures SameEntries(mem, mem, sp)
  {
  }

  lemma PresentSame(m0: seq<Byte>, mem: seq<Byte>, sp: Space, v: int, k: int)
    requires |m0| == UINT32 && |mem| == UINT32 && sp.Distinct() && 0 <= v + k < UINT32 && SameEntries(m0, mem, sp)
    ensures Present(m0, sp, v, k) <==> Present(mem, sp, v, k)
  {
  }

  /** While only the borrowed page was written, the string is still seen. */
  lemma SeesSame(m0: seq<Byte>, mem: seq<Byte>, sp: Space, virt: nat, limit: nat, page: int, i: nat)
    requires |m0| == UINT32 && |mem| == UINT32 && sp.Distinct() && virt + limit <= UINT32
    requires SameEntries(m0, mem, sp) && SameOutside(m0, mem, {page})
    requires Avoids(m0, sp, virt, limit, page)
    requires i <= |Str(m0, sp, virt, limit)| && i < limit
    ensures var s := Str(m0, sp, virt, limit);
      UserByte(mem, sp, virt + i) == if i < |s| then s[i] else 0
  {
    hide Entry, SameOutside, UserByte, AvoidsAt, Translate, Present;
    assert AvoidsAt(m0, sp, virt, i, page);
    FrameMore(m0, mem, {page}, sp.TablePages() + {page});
    SameUserByte(m0, mem, sp, virt, i, page);
    var view := View(m0, sp, virt, limit);
    assert UserByte(mem, sp, virt + i) == view[i];
    assert i < |CutAtNul(view)| ==> CutAtNul(view)[i] == view[i];
  }

  /** Writes one byte of the borrowed page through the task's mapping. */
  method Poke(m: Machine, directory: nat, tmp: nat, i: nat, b: Byte,
              ghost sp: Space, ghost page: int, ghost m0: seq<Byte>)
    requires SpaceIn(m.mem, sp) && directory == PAGE_SIZE * sp.dir && i < PAGE_SIZE
    requires 0 <= page < PAGES && tmp == PAGE_SIZE * page && page !in sp.Pages()
    requires |m0| == UINT32 && SameEntries(m0, m.mem, sp) && SameOutside(m0, m.mem, {page})
    requires Entry(m0, sp, page) == PAGE_SIZE * page + USER_FLAGS
    modifies m`mem
    ensures SpaceIn(m.mem, sp) && |m.mem| == UINT32
    ensures SameEntries(m0, m.mem, sp) && SameOutside(m0, m.mem, {page})
    ensures m.mem == old(m.mem)[tmp + i := b]
  {
    hide Entry, SpaceIn;
    ghost var before := m.mem;
    SpaceSize(before, sp);
    var to := m.GetPhysicalAddress(directory, tmp + i, sp);
    Unpack(page, USER_FLAGS);
    assert (tmp + i) / PAGE_SIZE == page && (tmp + i) % PAGE_SIZE == i;
    assert to == tmp + i;
    m.mem := m.mem[to := b];
    assert SameOutside(before, m.mem, {page});
    SpaceFrame(before, m.mem, {page}, sp);
  }

  /** The kernel's own `strncpy`, on identity-mapped memory. */
  method StrncpyKernel(m: Machine, dst: nat, src: nat, max: nat, ghost s: seq<Byte>)
    requires |m.mem| == UINT32 && 1 <= max && dst + max <= UINT32 && src + max <= UINT32
    requires dst + max <= src || src + max <= dst
    modifies m`mem
    ensures |m.mem| == UINT32
    ensures forall a :: 0 <= a < UINT32 && !(dst <= a < dst + max) ==> m.mem[a] == old(m.mem)[a]
    ensures CString(old(m.mem), src, s) && |s| < max && 0 !in s ==> CString(m.mem, dst, s)
  {
    ghost var m0, ok := m.mem, CString(m.mem, src, s) && |s| < max && 0 !in s;
    var i := 0;
    while i < max - 1
      invariant 0 <= i <= max - 1 && |m.mem| == UINT32
      invariant forall a :: 0 <= a < UINT32 && !(dst <= a < dst + max) ==> m.mem[a] == m0[a]
      invariant ok ==> i <= |s| && forall k :: 0 <= k < i ==> m.mem[dst + k] == s[k]
    {
      var b := m.mem[src + i];
      assert ok ==> b == if i < |s| then s[i] else 0;
      if b == 0 {
        break;
      }
      m.mem := m.mem[dst + i := b];
      i := i + 1;
    }
    m.mem := m.mem[dst + i := 0];
  }

  /** The terminator-cut prefix depends only on the bytes up to the terminator. */
  lemma {:induction false} CutSame(a: seq<Byte>, b: seq<Byte>)
    requires |a| == |b| && forall k :: 0 <= k <= |CutAtNul(a)| && k < |a| ==> a[k] == b[k]
    ensures CutAtNul(a) == CutAtNul(b)
  {
    if a != [] {
      assert a[0] == b[0];
      if a[0] != 0 {
        forall k | 0 <= k <= |CutAtNul(a[1..])| && k < |a[1..]|
          ensures a[1..][k] == b[1..][k]
        {
          assert a[k + 1] == b[k + 1];
        }
        CutSame(a[1..], b[1..]);
      }
    }
  }

  /** Editing the borrowed page's entry and contents changes nothing a string
      that avoids them shows. */
  lemma StillThere(m0: seq<Byte>, mem: seq<Byte>, sp: Space, virt: nat, limit: nat, page: int)
    requires |m0| == UINT32 && |mem| == UINT32 && sp.Distinct() && virt + limit <= UINT32
    requires SameEntriesBut(m0, mem, sp, page) && SameOutside(m0, mem, sp.TablePages() + {page})
    requires Avoids(m0, sp, virt, limit, page)
    ensures Str(mem, sp, virt, limit) == Str(m0, sp, virt, limit) && Avoids(mem, sp, virt, limit, page)
    ensures Readable(mem, sp, virt, limit) <==> Readable(m0, sp, virt, limit)
  {
    hide Entry, SameEntriesBut, SameOutside, UserByte, AvoidsAt, Translate, Present;
    var a, b := View(m0, sp, virt, limit), View(mem, sp, virt, limit);
    forall k | 0 <= k <= |CutAtNul(a)| && k < limit
      ensures a[k] == b[k] && AvoidsAt(mem, sp, virt, k, page)
      ensures Present(mem, sp, virt, k) <==> Present(m0, sp, virt, k)
    {
      assert AvoidsAt(m0, sp, virt, k, page);
      SameUserByte(m0, mem, sp, virt, k, page);
    }
    CutSame(a, b);
  }

  lemma SameUserByte(m0: seq<Byte>, mem: seq<Byte>, sp: Space, v: int, k: int, page: int)
    requires |m0| == UINT32 && |mem| == UINT32 && sp.Distinct() && 0 <= v + k < UINT32
    requires SameEntriesBut(m0, mem, sp, page) && SameOutside(m0, mem, sp.TablePages() + {page})
    requires AvoidsAt(m0, sp, v, k, page)
    ensures UserByte(mem, sp, v + k) == UserByte(m0, sp, v + k) && AvoidsAt(mem, sp, v, k, page)
    ensures Present(mem, sp, v, k) <==> Present(m0, sp, v, k)
  {
    hide Entry;
    TranslateInRange(m0, sp, v + k);
    assert Translate(mem, sp, v + k) == Translate(m0, sp, v + k);
  }

  /** Entries of every page but one are as in `m0`. */
  ghost predicate SameEntriesBut(m0: seq<Byte>, mem: seq<Byte>, sp: Space, page: int)
    requires |m0| == UINT32 && |mem| == UINT32 && sp.Distinct()
  {
    forall q :: 0 <= q < PAGES && q != page ==> Entry(mem, sp, q) == Entry(m0, sp, q)
  }

  lemma FrameMore(mem: seq<Byte>, after: seq<Byte>, a: set<int>, b: set<int>)
    requires SameOutside(mem, after, a) && a <= b
    ensures SameOutside(mem, after, b)
  {
  }

  /** Maps the borrowed page to itself and copies the string onto it. */
  method Borrow(m: Machine, directory: nat, tmp: nat, virt: nat, max: nat,
                ghost sp: Space, ghost page: int, ghost m0: seq<Byte>)
    returns (fault: bool)
    requires SpaceIn(m.mem, sp) && directory == PAGE_SIZE * sp.dir
    requires 0 <= page < PAGES && tmp == PAGE_SIZE * page && page !in sp.Pages()
    requires |m0| == UINT32 && SameEntries(m0, m.mem, sp) && SameOutside(m0, m.mem, {page})
    requires 1 <= max < PAGE_SIZE && virt + max <= UINT32
    modifies m`mem
    ensures SpaceIn(m.mem, sp) && |m.mem| == UINT32 && SameEntriesBut(m0, m.mem, sp, page)
    ensures SameOutside(m0, m.mem, sp.TablePages() + {page}) && Entry(m.mem, sp, page) == PAGE_SIZE * page + USER_FLAGS
    ensures Avoids(m0, sp, virt, max - 1, page) ==>
      && (fault <==> !Readable(m0, sp, virt, max - 1))
      && (!fault ==> CString(m.mem, tmp, Str(m0, sp, virt, max - 1)))
  {
    hide Entry, SpaceIn, Str, Avoids, SameOutside, CString, PutEntry, Readable;
    SpaceSize(m.mem, sp);
    ghost var m1, val := m.mem, PAGE_SIZE * page + USER_FLAGS;
    PutEntryKeeps(m1, sp, page, val);
    var _ := m.PagingSet(directory, tmp, WithFlags(tmp, USER_FLAGS), sp);
    ghost var m2 := m.mem;
    assert m2 == PutEntry(m1, sp, page, val);
    ghost var tables := sp.TablePages() + {page};
    FrameMore(m0, m1, {page}, tables);
    SameOutsideTrans(m0, m1, m2, tables, {sp.tables[page / ENTRIES]});
    if Avoids(m0, sp, virt, max - 1, page) {
      StillThere(m0, m2, sp, virt, max - 1, page);
    }
    fault := StrncpyUser(m, directory, tmp, virt, max, sp, page);
    SpaceSize(m.mem, sp);
    SameOutsideTrans(m0, m2, m.mem, tables, {page});
  }

  /** Puts the borrowed page's old entry back. */
  method Restore(m: Machine, directory: nat, tmp: nat, oldEntry: int,
                 ghost sp: Space, ghost page: int, ghost m0: seq<Byte>, ghost s: seq<Byte>)
    returns (res: int)
    requires SpaceIn(m.mem, sp) && directory == PAGE_SIZE * sp.dir && |m.mem| == UINT32
    requires 0 <= page < PAGES && tmp == PAGE_SIZE * page && page !in sp.Pages() && |s| < PAGE_SIZE
    requires |m0| == UINT32 && SameEntriesBut(m0, m.mem, sp, page) && oldEntry == Entry(m0, sp, page)
    modifies m`mem
    ensures res == 0 && SpaceIn(m.mem, sp) && |m.mem| == UINT32 && SameEntries(m0, m.mem, sp)
    ensures CString(old(m.mem), tmp, s) ==> CString(m.mem, tmp, s)
    ensures SameOutside(old(m.mem), m.mem, sp.TablePages() + {page})
  {
    hide Entry, SpaceIn, PutEntry;
    SpaceSize(m.mem, sp);
    ghost var before := m.mem;
    PutEntryKeeps(before, sp, page, oldEntry);
    res := m.PagingSet(directory, tmp, oldEntry, sp);
    assert m.mem == PutEntry(before, sp, page, oldEntry);
    assert sp.tables[page / ENTRIES] in sp.Pages();
    forall a | tmp <= a < tmp + PAGE_SIZE
      ensures m.mem[a] == before[a]
    {
      assert a / PAGE_SIZE == page;
    }
  }

  /** The bytes lie neither on free blocks of the heap nor on pages of the space. */
  ghost predicate KernelBuffer(sp: Space, base: int, runs: map<int, int>, total: nat, p: nat, n: nat) {
    forall a :: p <= a < p + n ==> KernelByte(sp, base, runs, total, a)
  }

  ghost predicate KernelByte(sp: Space, base: int, runs: map<int, int>, total: nat, a: int) {
    a / PAGE_SIZE !in sp.Pages() && a / PAGE_SIZE - base !in FreeBlocks(runs, total)
  }

  lemma BufferApart(sp: Space, base: int, runs: map<int, int>, total: nat, p: nat, n: nat, page: int)
    requires KernelBuffer(sp, base, runs, total, p, n) && page - base in FreeBlocks(runs, total) && n < PAGE_SIZE
    ensures p + n <= PAGE_SIZE * page || PAGE_SIZE * page + n <= p
  {
    var tmp := PAGE_SIZE * page;
    assert p <= tmp < p + n ==> KernelByte(sp, base, runs, total, tmp);
    assert tmp <= p < tmp + n && p < p + n ==> KernelByte(sp, base, runs, total, p);
  }

  /** Writing a kernel buffer changes no entry. */
  lemma BufferFrame(mem: seq<Byte>, after: seq<Byte>, sp: Space, base: int, runs: map<int, int>, total: nat,
                    p: nat, n: nat)
    requires SpaceIn(mem, sp) && |after| == UINT32 && KernelBuffer(sp, base, runs, total, p, n)
    requires forall a :: 0 <= a < UINT32 && !(p <= a < p + n) ==> after[a] == mem[a]
    ensures SpaceIn(after, sp) && SameEntries(mem, after, sp)
  {
    forall a | 0 <= a < UINT32 && a / PAGE_SIZE !in OtherPages(sp)
      ensures after[a] == mem[a]
    {
      assert a / PAGE_SIZE in sp.Pages();
      assert p <= a < p + n ==> KernelByte(sp, base, runs, total, a);
    }
    SpaceFrame(mem, after, OtherPages(sp), sp);
  }

  lemma AroundBuffer(mem: seq<Byte>, mid: seq<Byte>, late: seq<Byte>, after: seq<Byte>, p: nat, n: nat, pages: set<int>)
    requires |mem| == UINT32 && SameOutside(mem, mid, pages) && SameOutside(mid, late, pages) && |after| == UINT32
    requires forall a :: 0 <= a < UINT32 && !(p <= a < p + n) ==> after[a] == late[a]
    ensures UnchangedAround(mem, after, p, n, pages)
  {
  }

  lemma ZeroedPage(mem: seq<Byte>, after: seq<Byte>, page: int, size: nat)
    requires |mem| == UINT32 && |after| == UINT32 && ZeroedIn(mem, after, PAGE_SIZE * page, size) && size <= PAGE_SIZE
    ensures SameOutside(mem, after, {page})
  {
    forall a | 0 <= a < UINT32 && a / PAGE_SIZE != page
      ensures after[a] == mem[a]
    {
    }
  }

  /** Delivers the task's string, cut to `max - 1` bytes, into a kernel buffer.
      Unless reading the string faults, the task's whole address translation and
      the heap are as before; a fault leaves the borrowed page taken and mapped.
      For a string that avoids the borrowed page it faults exactly if some byte
      of it lies on a page that is not present. `page` is the page borrowed. */
  method CopyStringFromTask(m: Machine, directory: nat, virt: nat, phys: nat, max: nat, ghost sp: Space)
    returns (res: int, fault: bool, ghost page: int)
    requires m.Valid() && SpaceIn(m.mem, sp) && directory == PAGE_SIZE * sp.dir
    requires OwnsPages(m.heap.runs, m.base, sp.Pages())
    requires 1 <= max && virt + max <= UINT32 && phys + max <= UINT32
    requires max < PAGE_SIZE ==> KernelBuffer(sp, m.base, m.heap.runs, m.heap.entries.Length, phys, max)
    modifies m`mem, m.heap`runs, m.heap.entries
    ensures m.Valid() && SpaceIn(m.mem, sp)
    ensures res == if max >= PAGE_SIZE then -EINVARG else if Fits(old(m.heap.entries[..]), 1) then 0 else -ENOMEM
    ensures res != 0 ==> !fault && m.mem == old(m.mem)
    ensures res == 0 ==> page - m.base in FreeBlocks(old(m.heap.runs), m.heap.entries.Length)
    ensures !fault ==>
      && m.heap.runs == old(m.heap.runs) && m.heap.entries[..] == old(m.heap.entries[..])
      && SameEntries(old(m.mem), m.mem, sp)
    ensures fault ==>
      && m.heap.runs == old(m.heap.runs)[page - m.base := 1] && 0 <= page < PAGES
      && SameEntriesBut(old(m.mem), m.mem, sp, page) && Entry(m.mem, sp, page) == PAGE_SIZE * page + USER_FLAGS
    ensures res == 0 ==> UnchangedAround(old(m.mem), m.mem, phys, max, sp.TablePages() + {page})
    ensures res == 0 && Avoids(old(m.mem), sp, virt, max - 1, page) ==>
      && (fault <==> !Readable(old(m.mem), sp, virt, max - 1))
      && (!fault ==> CString(m.mem, phys, Str(old(m.mem), sp, virt, max - 1)))
  {
    hide Partitioned, Fits, AllFree, SpaceIn, OwnsPages, Entry, Str, Avoids, Readable, SameEntries, SameEntriesBut;
    hide FreeBlocks, ZeroedIn, CString, Taken, Freed, SameOutside, KernelBuffer, UnchangedAround;
    ghost var m0, t0, runs0, base := m.mem, m.heap.entries[..], m.heap.runs, m.base;
    SpaceSize(m0, sp);
    SameEntriesSelf(m0, sp);
    fault, page := false, 0;
    if max >= PAGE_SIZE {
      return -EINVARG, false, page;
    }
    OneBlockServed(t0);
    assert BlocksFor(max) == 1;
    var tmp := m.Zalloc(max);
    if tmp == 0 {
      return -ENOMEM, false, page;
    }
    page := tmp / PAGE_SIZE;
    ghost var s := page - base;
    TakenIsFree(t0, runs0, s);
    NewRunApart(m.heap.entries[..], runs0, s, 1, base, sp);
    ZeroedAside(m0, m.mem, sp, tmp, max, 1);
    ZeroedPage(m0, m.mem, page, max);
    var oldEntry := m.PagingGet(directory, tmp, sp);
    EntrySame(m0, m.mem, sp, page);
    fault := Borrow(m, directory, tmp, virt, max, sp, page, m0);
    ghost var str, m2 := Str(m0, sp, virt, max - 1), m.mem;
    if fault {
      PagesAround(m0, m2, phys, max, sp.TablePages() + {page});
      return 0, true, page;
    }
    res := Restore(m, directory, tmp, oldEntry, sp, page, m0, str);
    if res < 0 {
      res := -EIO;
    } else {
      ghost var m3 := m.mem;
      BufferApart(sp, base, runs0, m.heap.entries.Length, phys, max, page);
      StrncpyKernel(m, phys, tmp, max, str);
      BufferFrame(m3, m.mem, sp, base, runs0, m.heap.entries.Length, phys, max);
      SameEntriesTrans(m0, m3, m.mem, sp);
      AroundBuffer(m0, m2, m3, m.mem, phys, max, sp.TablePages() + {page});
    }
    FreeUndoesMalloc(t0, runs0, s, 1);
    m.heap.Free(tmp);
    assert m.heap.runs == runs0;
  }

  lemma EntrySame(m0: seq<Byte>, mem: seq<Byte>, sp: Space, page: int)
    requires |m0| == UINT32 && |mem| == UINT32 && sp.Distinct() && 0 <= page < PAGES && SameEntries(m0, mem, sp)
    ensures Entry(m0, sp, page) == Entry(mem, sp, page)
  {
  }

  lemma SameEntriesTrans(m0: seq<Byte>, mid: seq<Byte>, mem: seq<Byte>, sp: Space)
    requires |m0| == UINT32 && |mid| == UINT32 && |mem| == UINT32 && sp.Distinct()
    requires SameEntries(m0, mid, sp) && SameEntries(mid, mem, sp)
    ensures SameEntries(m0, mem, sp)
  {
  }

  lemma PagesAround(mem: seq<Byte>, after: seq<Byte>, p: nat, n: nat, pages: set<int>)
    requires SameOutside(mem, after, pages)
    ensures UnchangedAround(mem, after, p, n, pages)
  {
  }
}
