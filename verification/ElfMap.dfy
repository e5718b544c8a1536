/**
 Mapping an ELF image: each program header's pages are mapped onto the image
 in memory, rounded out to whole pages.
 */
module ElfMap {
  import opened Bytes
  import opened PageTables
  import opened Paging

  datatype ProgramHeader = ProgramHeader(offset: nat, vaddr: nat, memsz: nat, writable: bool)

  /** The header stays inside 32-bit addresses after rounding out to pages. */
  ghost predicate InRange(h: ProgramHeader, elf: nat) {
    && h.vaddr < UINT32 && elf + h.offset < UINT32 && AlignAddress(elf + h.offset + h.memsz) < UINT32
    && VPage(h) + Count(h, elf) <= PAGES
  }

  ghost function VPage(h: ProgramHeader): int {
    h.vaddr / PAGE_SIZE
  }

  ghost function PPage(h: ProgramHeader, elf: nat): int {
    (elf + h.offset) / PAGE_SIZE
  }

  /** Pages mapped for the header. */
  ghost function Count(h: ProgramHeader, elf: nat): int {
    (AlignAddress(elf + h.offset + h.memsz) - PageMask(elf + h.offset)) / PAGE_SIZE
  }

  function SegmentFlags(h: ProgramHeader): nat {
    IS_PRESENT + ACCESS_FROM_ALL + if h.writable then IS_WRITEABLE else 0
  }

  /** The pages two headers map do not meet. */
  ghost predicate PagesApart(h: ProgramHeader, g: ProgramHeader, elf: nat) {
    VPage(h) + Count(h, elf) <= VPage(g) || VPage(g) + Count(g, elf) <= VPage(h)
  }

  ghost predicate SegmentMapped(mem: seq<Byte>, sp: Space, h: ProgramHeader, elf: nat)
    requires |mem| == UINT32 && sp.Distinct() && InRange(h, elf)
  {
    forall q :: VPage(h) <= q < VPage(h) + Count(h, elf) ==>
      Entry(mem, sp, q) == PAGE_SIZE * (PPage(h, elf) + (q - VPage(h))) + SegmentFlags(h)
  }

  /** Every byte of the segment translates to its byte in the image. */
  ghost predicate SegmentTranslates(mem: seq<Byte>, sp: Space, h: ProgramHeader, elf: nat)
    requires |mem| == UINT32 && sp.Distinct()
  {
    forall k :: 0 <= k < h.memsz ==> ByteTranslates(mem, sp, h, elf, k)
  }

  ghost predicate ByteTranslates(mem: seq<Byte>, sp: Space, h: ProgramHeader, elf: nat, k: nat)
    requires |mem| == UINT32 && sp.Distinct()
  {
    && h.vaddr + k < UINT32
    && Translate(mem, sp, h.vaddr + k) == elf + h.offset + k
    && FlagsOf(mem, sp, h.vaddr + k) == SegmentFlags(h)
  }

  /** Byte `k` of the segment is byte `offset + k` of the image, present and reachable
      from user mode, and writable exactly if the header says so. */
  ghost predicate SegmentByte(mem: seq<Byte>, sp: Space, h: ProgramHeader, elf: nat, k: nat)
    requires |mem| == UINT32 && sp.Distinct()
  {
    && h.vaddr + k < UINT32 && Translate(mem, sp, h.vaddr + k) == elf + h.offset + k
    && var flags := FlagsOf(mem, sp, h.vaddr + k);
       flags % 2 == 1 && (flags / 2 % 2 == 1 <==> h.writable) && flags / 4 % 2 == 1
  }

  /** Page `q` belongs to none of the first `n` headers. */
  ghost predicate Outside(headers: seq<ProgramHeader>, elf: nat, n: int, q: int)
    requires 0 <= n <= |headers|
  {
    forall i :: 0 <= i < n ==> !(VPage(headers[i]) <= q < VPage(headers[i]) + Count(headers[i], elf))
  }

  /** The address and the image offset agree modulo the page size. */
  ghost predicate Congruent(h: ProgramHeader, elf: nat) {
    h.vaddr % PAGE_SIZE == (elf + h.offset) % PAGE_SIZE
  }

  /** A mapped, non-empty segment translates exactly when it is congruent. */
  lemma TranslatesIffCongruent(mem: seq<Byte>, sp: Space, h: ProgramHeader, elf: nat)
    requires |mem| == UINT32 && sp.Distinct() && InRange(h, elf) && SegmentMapped(mem, sp, h, elf) && h.memsz > 0
    ensures SegmentTranslates(mem, sp, h, elf) <==> Congruent(h, elf)
  {
    hide Entry;
    if Congruent(h, elf) {
      forall k | 0 <= k < h.memsz
        ensures ByteTranslates(mem, sp, h, elf, k)
      {
        CongruentByte(mem, sp, h, elf, k);
      }
    } else {
      FirstByte(mem, sp, h, elf);
      assert !ByteTranslates(mem, sp, h, elf, 0);
    }
  }

  /** A byte at address 1 of an image's first byte is found one byte too far. */
  lemma MisalignedSegment(mem: seq<Byte>, sp: Space, elf: nat)
    requires |mem| == UINT32 && sp.Distinct() && elf % PAGE_SIZE == 0
    requires var h := ProgramHeader(0, 1, 1, false); InRange(h, elf) && SegmentMapped(mem, sp, h, elf)
    ensures !SegmentTranslates(mem, sp, ProgramHeader(0, 1, 1, false), elf)
  {
    TranslatesIffCongruent(mem, sp, ProgramHeader(0, 1, 1, false), elf);
  }

  /** The flag bits of a segment: present and reachable from user mode always,
      writable exactly if the header says so. */
  lemma SegmentBits(mem: seq<Byte>, sp: Space, h: ProgramHeader, elf: nat, k: nat)
    requires |mem| == UINT32 && sp.Distinct() && ByteTranslates(mem, sp, h, elf, k)
    ensures var flags := FlagsOf(mem, sp, h.vaddr + k);
      flags % 2 == 1 && (flags / 2 % 2 == 1 <==> h.writable) && flags / 4 % 2 == 1 && flags < 8
  {
  }

  lemma FirstByte(mem: seq<Byte>, sp: Space, h: ProgramHeader, elf: nat)
    requires |mem| == UINT32 && sp.Distinct() && InRange(h, elf) && SegmentMapped(mem, sp, h, elf) && h.memsz > 0
    ensures Translate(mem, sp, h.vaddr) == PageMask(elf + h.offset) + h.vaddr % PAGE_SIZE
  {
    hide Entry;
    var q, n := VPage(h), PPage(h, elf);
    CountHolds(h, elf);
    assert Entry(mem, sp, q) == PAGE_SIZE * n + SegmentFlags(h);
    Unpack(n, SegmentFlags(h));
  }

  /** The mapped pages hold the segment and the slack before it. */
  lemma CountHolds(h: ProgramHeader, elf: nat)
    ensures PAGE_SIZE * Count(h, elf) >= (elf + h.offset) % PAGE_SIZE + h.memsz
    ensures PAGE_SIZE * Count(h, elf) < (elf + h.offset) % PAGE_SIZE + h.memsz + PAGE_SIZE
    ensures h.memsz > 0 ==> Count(h, elf) >= 1
  {
    var phys := elf + h.offset;
    var end := AlignAddress(phys + h.memsz);
    AlignIsUp(phys + h.memsz);
    assert (end - PageMask(phys)) % PAGE_SIZE == 0;
  }

  lemma AlignIsUp(p: nat)
    ensures AlignAddress(p) % PAGE_SIZE == 0 && p <= AlignAddress(p) < p + PAGE_SIZE
  {
  }

  lemma CongruentByte(mem: seq<Byte>, sp: Space, h: ProgramHeader, elf: nat, k: nat)
    requires |mem| == UINT32 && sp.Distinct() && InRange(h, elf) && SegmentMapped(mem, sp, h, elf)
    requires Congruent(h, elf) && k < h.memsz
    ensures ByteTranslates(mem, sp, h, elf, k)
  {
    hide Entry, PageMask, AlignAddress, Count;
    var phys, a := elf + h.offset, h.vaddr + k;
    CountHolds(h, elf);
    var r := h.vaddr % PAGE_SIZE;
    assert h.vaddr == PAGE_SIZE * VPage(h) + r && phys == PAGE_SIZE * PPage(h, elf) + r;
    assert a < PAGE_SIZE * (VPage(h) + Count(h, elf));
    var q := a / PAGE_SIZE;
    var n := PPage(h, elf) + (q - VPage(h));
    assert VPage(h) <= q < VPage(h) + Count(h, elf);
    assert Entry(mem, sp, q) == PAGE_SIZE * n + SegmentFlags(h);
    Unpack(n, SegmentFlags(h));
    assert a == PAGE_SIZE * q + a % PAGE_SIZE;
  }

  /** Maps every header in turn. When no two map the same page, all segments
      end up mapped and every other page keeps its entry. */
  method MapElf(m: Machine, directory: nat, elf: nat, headers: seq<ProgramHeader>, ghost sp: Space) returns (res: int)
    requires SpaceIn(m.mem, sp) && directory == PAGE_SIZE * sp.dir && elf % PAGE_SIZE == 0
    requires forall i :: 0 <= i < |headers| ==> InRange(headers[i], elf)
    requires forall i, j :: 0 <= i < j < |headers| ==> PagesApart(headers[i], headers[j], elf)
    modifies m`mem
    ensures res == 0 && SpaceIn(m.mem, sp)
    ensures forall i :: 0 <= i < |headers| ==> SegmentMapped(m.mem, sp, headers[i], elf)
    ensures forall i :: 0 <= i < |headers| && headers[i].memsz > 0 ==>
      (SegmentTranslates(m.mem, sp, headers[i], elf) <==> Congruent(headers[i], elf))
    ensures forall i, k :: 0 <= i < |headers| && 0 <= k < headers[i].memsz && Congruent(headers[i], elf) ==>
      SegmentByte(m.mem, sp, headers[i], elf, k)
    ensures forall q :: 0 <= q < PAGES && Outside(headers, elf, |headers|, q) ==>
      Entry(m.mem, sp, q) == Entry(old(m.mem), sp, q)
    ensures SameOutside(old(m.mem), m.mem, sp.TablePages())
  {
    hide Entry, Remapped, SegmentMapped, Count, PagesApart, SegmentTranslates, Congruent, SameOutside, SpaceIn, InRange;
    hide PageMask, AlignAddress, VPage, Outside, SegmentByte, ByteTranslates;
    res := 0;
    SpaceSize(m.mem, sp);
    SameOutsideSelf(m.mem, sp.TablePages());
    for i := 0 to |headers|
      invariant res == 0 && SpaceIn(m.mem, sp) && |m.mem| == UINT32 && SameOutside(old(m.mem), m.mem, sp.TablePages())
      invariant forall j :: 0 <= j < i ==> SegmentMapped(m.mem, sp, headers[j], elf)
      invariant forall q :: 0 <= q < PAGES && Outside(headers, elf, i, q) ==>
        Entry(m.mem, sp, q) == Entry(old(m.mem), sp, q)
    {
      var h := headers[i];
      var phys := elf + h.offset;
      ghost var before := m.mem;
      HeaderBounds(h, elf);
      res := m.MapTo(directory, PageMask(h.vaddr), PageMask(phys), AlignAddress(phys + h.memsz), SegmentFlags(h), sp);
      SpaceSize(m.mem, sp);
      HeaderMapped(before, m.mem, sp, h, elf);
      SameOutsideTrans(old(m.mem), before, m.mem, sp.TablePages(), sp.TablePages());
      forall j | 0 <= j < i
        ensures SegmentMapped(m.mem, sp, headers[j], elf)
      {
        HeaderKept(before, m.mem, sp, h, headers[j], elf);
      }
      forall q | 0 <= q < PAGES && Outside(headers, elf, i + 1, q)
        ensures Entry(m.mem, sp, q) == Entry(old(m.mem), sp, q)
      {
        OutsideLess(headers, elf, i, q);
        HeaderElsewhere(before, m.mem, sp, h, elf, q);
      }
    }
    forall i | 0 <= i < |headers| && headers[i].memsz > 0
      ensures SegmentTranslates(m.mem, sp, headers[i], elf) <==> Congruent(headers[i], elf)
    {
      TranslatesIffCongruent(m.mem, sp, headers[i], elf);
    }
    forall i, k | 0 <= i < |headers| && 0 <= k < headers[i].memsz && Congruent(headers[i], elf)
      ensures SegmentByte(m.mem, sp, headers[i], elf, k)
    {
      MappedByte(m.mem, sp, headers[i], elf, k);
    }
  }

  lemma MappedByte(mem: seq<Byte>, sp: Space, h: ProgramHeader, elf: nat, k: nat)
    requires |mem| == UINT32 && sp.Distinct() && InRange(h, elf) && SegmentMapped(mem, sp, h, elf)
    requires Congruent(h, elf) && k < h.memsz
    ensures SegmentByte(mem, sp, h, elf, k)
  {
    hide Entry, Translate, FlagsOf, SegmentMapped;
    CongruentByte(mem, sp, h, elf, k);
    SegmentBits(mem, sp, h, elf, k);
  }

  lemma OutsideLess(headers: seq<ProgramHeader>, elf: nat, i: int, q: int)
    requires 0 <= i < |headers| && Outside(headers, elf, i + 1, q)
    ensures Outside(headers, elf, i, q) && !(VPage(headers[i]) <= q < VPage(headers[i]) + Count(headers[i], elf))
  {
  }

  /** The call the driver makes for a header maps `Count` pages. */
  lemma HeaderBounds(h: ProgramHeader, elf: nat)
    requires InRange(h, elf)
    ensures var phys := elf + h.offset; var end := AlignAddress(phys + h.memsz);
      && h.vaddr < UINT32 && phys < UINT32 && 0 <= PageMask(h.vaddr) < UINT32
      && PageMask(h.vaddr) % PAGE_SIZE == 0 && PageMask(h.vaddr) / PAGE_SIZE == VPage(h)
      && 0 <= PageMask(phys) <= end < UINT32 && PageMask(phys) % PAGE_SIZE == 0 && end % PAGE_SIZE == 0
      && PageMask(phys) / PAGE_SIZE == PPage(h, elf)
      && (end - PageMask(phys)) / PAGE_SIZE == Count(h, elf) && Count(h, elf) >= 0
      && PPage(h, elf) + Count(h, elf) <= PAGES
  {
    AlignIsUp(elf + h.offset + h.memsz);
  }

  lemma HeaderMapped(before: seq<Byte>, after: seq<Byte>, sp: Space, h: ProgramHeader, elf: nat)
    requires |before| == UINT32 && sp.Distinct() && InRange(h, elf)
    requires Remapped(before, after, sp, VPage(h), PPage(h, elf), Count(h, elf), SegmentFlags(h))
    ensures SegmentMapped(after, sp, h, elf) && SameOutside(before, after, sp.TablePages())
  {
    hide Entry;
    HeaderBounds(h, elf);
    forall q | VPage(h) <= q < VPage(h) + Count(h, elf)
      ensures Entry(after, sp, q) == PAGE_SIZE * (PPage(h, elf) + (q - VPage(h))) + SegmentFlags(h)
    {
      MappedEntryInterval(Entry(before, sp, q), q, VPage(h), PPage(h, elf), Count(h, elf), SegmentFlags(h));
    }
  }

  lemma HeaderElsewhere(before: seq<Byte>, after: seq<Byte>, sp: Space, h: ProgramHeader, elf: nat, q: int)
    requires |before| == UINT32 && sp.Distinct() && InRange(h, elf)
    requires Remapped(before, after, sp, VPage(h), PPage(h, elf), Count(h, elf), SegmentFlags(h))
    requires 0 <= q < PAGES && !(VPage(h) <= q < VPage(h) + Count(h, elf))
    ensures Entry(after, sp, q) == Entry(before, sp, q)
  {
    hide Entry;
    HeaderBounds(h, elf);
    MappedEntryInterval(Entry(before, sp, q), q, VPage(h), PPage(h, elf), Count(h, elf), SegmentFlags(h));
  }

  lemma HeaderKept(before: seq<Byte>, after: seq<Byte>, sp: Space, h: ProgramHeader, g: ProgramHeader, elf: nat)
    requires |before| == UINT32 && sp.Distinct() && InRange(h, elf) && InRange(g, elf)
    requires Remapped(before, after, sp, VPage(h), PPage(h, elf), Count(h, elf), SegmentFlags(h))
    requires SegmentMapped(before, sp, g, elf) && PagesApart(g, h, elf)
    ensures SegmentMapped(after, sp, g, elf)
  {
    hide Entry;
    forall q | VPage(g) <= q < VPage(g) + Count(g, elf)
      ensures Entry(after, sp, q) == Entry(before, sp, q)
    {
      HeaderElsewhere(before, after, sp, h, elf, q);
    }
  }
}
