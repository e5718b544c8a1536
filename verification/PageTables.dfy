/**
 Two-level 32-bit page tables as they lie in physical memory.

 An address space occupies 1026 pages: the chunk record that points at the
 directory, the directory, and 1024 tables. `Space` names those pages by
 number; `SpaceIn` says that memory holds such a space. Entries pack a page
 number and twelve flag bits, so pointers are recovered by masking.
 */
module PageTables {
  import opened Bytes

  const PAGE_SIZE := 4096
  const ENTRIES := 1024
  const PAGES := 0x10_0000

  const IS_PRESENT := 0x01
  const IS_WRITEABLE := 0x02
  const ACCESS_FROM_ALL := 0x04

  datatype Space = Space(chunk: int, dir: int, tables: seq<int>) {
    ghost function TablePages(): set<int> {
      set t | t in tables
    }

    ghost function Pages(): set<int> {
      {chunk, dir} + TablePages()
    }

    ghost predicate Distinct() {
      && |tables| == ENTRIES
      && 0 <= chunk < PAGES && 0 <= dir < PAGES && chunk != dir
      && chunk !in tables && dir !in tables
      && (forall d :: 0 <= d < ENTRIES ==> 0 <= tables[d] < PAGES)
      && (forall d, e :: 0 <= d < e < ENTRIES ==> tables[d] != tables[e])
    }
  }

  /** Word `i` of page `t`. */
  ghost function PageWord(mem: seq<Byte>, t: int, i: int): (w: int)
    requires |mem| == UINT32 && 0 <= t < PAGES && 0 <= i < ENTRIES
    ensures 0 <= w < UINT32
  {
    Word(mem, PAGE_SIZE * t + 4 * i)
  }

  ghost function PutPageWord(mem: seq<Byte>, t: int, i: int, w: int): (r: seq<Byte>)
    requires |mem| == UINT32 && 0 <= t < PAGES && 0 <= i < ENTRIES && 0 <= w < UINT32
    ensures |r| == UINT32
  {
    PutWord(mem, PAGE_SIZE * t + 4 * i, w)
  }

  /** `v & 0xfffff000` */
  function PageMask(v: int): int {
    v - v % PAGE_SIZE
  }

  /** `base | flags` for a page-aligned base: the operands share no bit. */
  function WithFlags(base: int, flags: int): int
    requires base % PAGE_SIZE == 0 && 0 <= flags < PAGE_SIZE
  {
    base + flags
  }

  /** Memory agrees outside the given pages. */
  ghost predicate SameOutside(mem: seq<Byte>, after: seq<Byte>, pages: set<int>) {
    && |mem| == |after|
    && forall a :: 0 <= a < |mem| && a / PAGE_SIZE !in pages ==> after[a] == mem[a]
  }

  /** Bytes outside the range and the given pages are what they were. */
  ghost predicate UnchangedAround(mem: seq<Byte>, after: seq<Byte>, p: nat, n: nat, pages: set<int>) {
    && |mem| == |after|
    && forall a :: 0 <= a < |mem| && !(p <= a < p + n) && a / PAGE_SIZE !in pages ==> after[a] == mem[a]
  }

  lemma SameOutsideTrans(mem: seq<Byte>, mid: seq<Byte>, after: seq<Byte>, pages: set<int>, more: set<int>)
    requires SameOutside(mem, mid, pages) && SameOutside(mid, after, more) && more <= pages
    ensures SameOutside(mem, after, pages)
  {
  }

  lemma PageWordOfPut(mem: seq<Byte>, t: int, i: int, w: int, u: int, j: int)
    requires |mem| == UINT32 && 0 <= t < PAGES && 0 <= i < ENTRIES && 0 <= w < UINT32
    requires 0 <= u < PAGES && 0 <= j < ENTRIES
    ensures PageWord(PutPageWord(mem, t, i, w), u, j) == if t == u && i == j then w else PageWord(mem, u, j)
  {
    var p, q := PAGE_SIZE * t + 4 * i, PAGE_SIZE * u + 4 * j;
    if t < u {
      assert p + 4 <= q;
    } else if u < t {
      assert q + 4 <= p;
    }
    WordOfPut(mem, p, w, q);
  }

  lemma PutStaysInPage(mem: seq<Byte>, t: int, i: int, w: int)
    requires |mem| == UINT32 && 0 <= t < PAGES && 0 <= i < ENTRIES && 0 <= w < UINT32
    ensures SameOutside(mem, PutPageWord(mem, t, i, w), {t})
  {
    var p := PAGE_SIZE * t + 4 * i;
    forall a | p <= a < p + 4
      ensures a / PAGE_SIZE == t
    {
    }
  }

  lemma PageWordFrame(mem: seq<Byte>, after: seq<Byte>, pages: set<int>, t: int, i: int)
    requires |mem| == UINT32 && SameOutside(mem, after, pages)
    requires 0 <= t < PAGES && 0 <= i < ENTRIES && t !in pages
    ensures PageWord(after, t, i) == PageWord(mem, t, i)
  {
    var p := PAGE_SIZE * t + 4 * i;
    forall a | p <= a < p + 4
      ensures after[a] == mem[a]
    {
      assert a / PAGE_SIZE == t;
    }
  }

  // -------------------------------------------------------------- spaces

  /** Memory holds the address space: the chunk points at the directory, whose
      masked entries are the table pointers. */
  ghost predicate SpaceIn(mem: seq<Byte>, sp: Space) {
    && |mem| == UINT32 && sp.Distinct()
    && PageWord(mem, sp.chunk, 0) == PAGE_SIZE * sp.dir
    && forall d :: 0 <= d < ENTRIES ==> PageWord(mem, sp.dir, d) / PAGE_SIZE == sp.tables[d]
  }

  /** The entry that governs a page, found through the two-level index split. */
  ghost function Entry(mem: seq<Byte>, sp: Space, page: int): (e: int)
    requires |mem| == UINT32 && sp.Distinct() && 0 <= page < PAGES
    ensures 0 <= e < UINT32
  {
    PageWord(mem, sp.tables[page / ENTRIES], page % ENTRIES)
  }

  ghost function PutEntry(mem: seq<Byte>, sp: Space, page: int, val: int): (r: seq<Byte>)
    requires |mem| == UINT32 && sp.Distinct() && 0 <= page < PAGES && 0 <= val < UINT32
    ensures |r| == UINT32
  {
    PutPageWord(mem, sp.tables[page / ENTRIES], page % ENTRIES, val)
  }

  /** The physical address a 32-bit address translates to. */
  ghost function Translate(mem: seq<Byte>, sp: Space, address: int): int
    requires |mem| == UINT32 && sp.Distinct() && 0 <= address < UINT32
  {
    PageMask(Entry(mem, sp, address / PAGE_SIZE)) + address % PAGE_SIZE
  }

  /** The flag bits an address is mapped with. */
  ghost function FlagsOf(mem: seq<Byte>, sp: Space, address: int): int
    requires |mem| == UINT32 && sp.Distinct() && 0 <= address < UINT32
  {
    Entry(mem, sp, address / PAGE_SIZE) % PAGE_SIZE
  }

  /** Setting one entry keeps the space and every other entry. */
  lemma PutEntryKeeps(mem: seq<Byte>, sp: Space, page: int, val: int)
    requires SpaceIn(mem, sp) && 0 <= page < PAGES && 0 <= val < UINT32
    ensures SpaceIn(PutEntry(mem, sp, page, val), sp)
    ensures forall q :: 0 <= q < PAGES ==>
      Entry(PutEntry(mem, sp, page, val), sp, q) == if q == page then val else Entry(mem, sp, q)
    ensures SameOutside(mem, PutEntry(mem, sp, page, val), {sp.tables[page / ENTRIES]})
  {
    var after := PutEntry(mem, sp, page, val);
    var t, i := sp.tables[page / ENTRIES], page % ENTRIES;
    forall d | 0 <= d < ENTRIES
      ensures PageWord(after, sp.dir, d) == PageWord(mem, sp.dir, d)
    {
      PageWordOfPut(mem, t, i, val, sp.dir, d);
    }
    PageWordOfPut(mem, t, i, val, sp.chunk, 0);
    forall q | 0 <= q < PAGES
      ensures Entry(after, sp, q) == if q == page then val else Entry(mem, sp, q)
    {
      PageWordOfPut(mem, t, i, val, sp.tables[q / ENTRIES], q % ENTRIES);
      assert q == ENTRIES * (q / ENTRIES) + q % ENTRIES && page == ENTRIES * (page / ENTRIES) + page % ENTRIES;
    }
    PutStaysInPage(mem, t, i, val);
  }

  lemma SpaceFrame(mem: seq<Byte>, after: seq<Byte>, pages: set<int>, sp: Space)
    requires SpaceIn(mem, sp) && SameOutside(mem, after, pages) && pages !! sp.Pages()
    ensures SpaceIn(after, sp)
    ensures forall q :: 0 <= q < PAGES ==> Entry(after, sp, q) == Entry(mem, sp, q)
  {
    PageWordFrame(mem, after, pages, sp.chunk, 0);
    forall d | 0 <= d < ENTRIES
      ensures PageWord(after, sp.dir, d) == PageWord(mem, sp.dir, d)
    {
      PageWordFrame(mem, after, pages, sp.dir, d);
    }
    forall q | 0 <= q < PAGES
      ensures Entry(after, sp, q) == Entry(mem, sp, q)
    {
      assert sp.tables[q / ENTRIES] in sp.Pages();
      PageWordFrame(mem, after, pages, sp.tables[q / ENTRIES], q % ENTRIES);
    }
  }

  /** Pages that hold no part of the space. */
  ghost function OtherPages(sp: Space): set<int> {
    set p | 0 <= p < PAGES && p !in sp.Pages()
  }

  // ------------------------------------------------------------- mapping

  /** The entry a page has after `count` pages from `vpage` on were mapped to
      consecutive pages from `ppage` on, both wrapping at 4 GB. */
  ghost function MappedEntry(was: int, q: int, vpage: int, ppage: int, count: int, flags: int): int {
    var i := (q - vpage) % PAGES;
    if i < count then PAGE_SIZE * ((ppage + i) % PAGES) + flags else was
  }

  /** `after` is `mem` with that range mapped and nothing else changed. */
  ghost predicate Remapped(mem: seq<Byte>, after: seq<Byte>, sp: Space, vpage: int, ppage: int, count: int, flags: int)
    requires |mem| == UINT32 && sp.Distinct()
  {
    && SpaceIn(after, sp)
    && SameOutside(mem, after, sp.TablePages())
    && forall q :: 0 <= q < PAGES ==>
         Entry(after, sp, q) == MappedEntry(Entry(mem, sp, q), q, vpage, ppage, count, flags)
  }

  lemma RemappedNothing(mem: seq<Byte>, sp: Space, vpage: int, ppage: int, flags: int)
    requires SpaceIn(mem, sp)
    ensures Remapped(mem, mem, sp, vpage, ppage, 0, flags)
  {
  }

  /** One more page extends the mapped range. */
  lemma RemappedStep(mem: seq<Byte>, mid: seq<Byte>, sp: Space, vpage: int, ppage: int, count: int, flags: int,
                     page: int, val: int)
    requires SpaceIn(mem, sp) && Remapped(mem, mid, sp, vpage, ppage, count, flags)
    requires 0 <= count < PAGES && 0 <= flags < PAGE_SIZE
    requires page == (vpage + count) % PAGES && val == PAGE_SIZE * ((ppage + count) % PAGES) + flags
    ensures Remapped(mem, PutEntry(mid, sp, page, val), sp, vpage, ppage, count + 1, flags)
  {
    hide MappedEntry, Entry, PutEntry, SameOutside;
    var after := PutEntry(mid, sp, page, val);
    PutEntryKeeps(mid, sp, page, val);
    forall q | 0 <= q < PAGES
      ensures Entry(after, sp, q) == MappedEntry(Entry(mem, sp, q), q, vpage, ppage, count + 1, flags)
    {
      MappedEntryStep(Entry(mem, sp, q), q, vpage, ppage, count, flags);
    }
    SameOutsideTrans(mem, mid, after, sp.TablePages(), {sp.tables[page / ENTRIES]});
  }

  lemma DistanceFrom(q: int, vpage: int, count: int)
    requires 0 <= q < PAGES && 0 <= count < PAGES
    ensures q == (vpage + count) % PAGES <==> (q - vpage) % PAGES == count
  {
  }

  lemma MappedEntryStep(was: int, q: int, vpage: int, ppage: int, count: int, flags: int)
    requires 0 <= q < PAGES && 0 <= count < PAGES
    ensures MappedEntry(was, q, vpage, ppage, count + 1, flags)
         == if q == (vpage + count) % PAGES then PAGE_SIZE * ((ppage + count) % PAGES) + flags
            else MappedEntry(was, q, vpage, ppage, count, flags)
  {
    DistanceFrom(q, vpage, count);
  }

  lemma Unpack(n: int, flags: int)
    requires 0 <= flags < PAGE_SIZE
    ensures PageMask(PAGE_SIZE * n + flags) == PAGE_SIZE * n && (PAGE_SIZE * n + flags) % PAGE_SIZE == flags
  {
  }

  /** Without wrapping, the mapped pages are a plain interval. */
  lemma MappedEntryInterval(was: int, q: int, vpage: int, ppage: int, count: int, flags: int)
    requires 0 <= q < PAGES && 0 <= vpage && 0 <= count && vpage + count <= PAGES
    requires 0 <= ppage && ppage + count <= PAGES
    ensures MappedEntry(was, q, vpage, ppage, count, flags)
         == if vpage <= q < vpage + count then PAGE_SIZE * (ppage + (q - vpage)) + flags else was
  {
    assert (q - vpage) % PAGES == if q >= vpage then q - vpage else q - vpage + PAGES;
  }

  /** A non-wrapping mapping: addresses inside the range translate to the
      physical range with the given flags, all others as before. */
  lemma RemappedTranslates(mem: seq<Byte>, after: seq<Byte>, sp: Space, vpage: int, ppage: int, count: int, flags: int,
                           a: int)
    requires SpaceIn(mem, sp) && Remapped(mem, after, sp, vpage, ppage, count, flags)
    requires 0 <= vpage && 0 <= count && vpage + count <= PAGES
    requires 0 <= ppage && ppage + count <= PAGES && 0 <= flags < PAGE_SIZE
    requires 0 <= a < UINT32
    ensures if PAGE_SIZE * vpage <= a < PAGE_SIZE * (vpage + count) then
              && Translate(after, sp, a) == PAGE_SIZE * ppage + (a - PAGE_SIZE * vpage)
              && FlagsOf(after, sp, a) == flags
            else
              && Translate(after, sp, a) == Translate(mem, sp, a)
              && FlagsOf(after, sp, a) == FlagsOf(mem, sp, a)
  {
    hide MappedEntry, Entry, PageMask, SameOutside;
    var q, r := a / PAGE_SIZE, a % PAGE_SIZE;
    assert a == PAGE_SIZE * q + r;
    assert PAGE_SIZE * vpage <= a < PAGE_SIZE * (vpage + count) <==> vpage <= q < vpage + count;
    MappedEntryInterval(Entry(mem, sp, q), q, vpage, ppage, count, flags);
    var n := ppage + (q - vpage);
    Unpack(n, flags);
    if vpage <= q < vpage + count {
      assert Entry(after, sp, q) == PAGE_SIZE * n + flags;
    } else {
      assert Entry(after, sp, q) == Entry(mem, sp, q);
    }
  }
}
