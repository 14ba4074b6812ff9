/**
 The bootloader's page tables. The 1024 tables of 1024 entries lie one behind the other in memory, so
 they are one array indexed by virtual page number; entry `i` of the directory points at table `i`.
 */
module BootPaging {
  import opened Machine

  const PAGE_SIZE: nat := 4096
  const FRAMES: nat := 0x10_0000

  /** The bits that paging set-up leaves alone are kept in `rest`. */
  datatype Entry = Entry(present: bool, rw: bool, user: bool, global: bool, frame: nat, rest: nat)

  datatype DirEntry = DirEntry(present: bool, rw: bool, available: nat, frame: nat, rest: nat)

  /** Page mapped for the kernel to frame `f`, of which 20 bits are stored. */
  function MappedTo(e: Entry, f: nat): (r: Entry) {
    e.(frame := f % FRAMES, rw := true, present := true, global := false, user := false)
  }

  function Marked(d: DirEntry, table: nat): (r: DirEntry) {
    d.(rw := true, present := true, available := 1, frame := table % FRAMES)
  }

  /** The page table entries after mapping `count` pages from `virt` on to the frames from `phys` on. */
  ghost function PagesAfter(pages: seq<Entry>, virt: nat, phys: nat, count: nat): (r: seq<Entry>)
    ensures |r| == |pages|
  {
    seq(|pages|, p requires 0 <= p < |pages| => PageAfter(pages[p], p, virt, phys, count))
  }

  ghost function PageAfter(e: Entry, p: nat, virt: nat, phys: nat, count: nat): (r: Entry) {
    if virt <= p < virt + count then MappedTo(e, phys + (p - virt)) else e
  }

  /** The directory marks exactly the tables with a page in the range. */
  ghost function DirAfter(dir: seq<DirEntry>, base: nat, virt: nat, count: nat): (r: seq<DirEntry>)
    ensures |r| == |dir|
  {
    seq(|dir|, i requires 0 <= i < |dir| =>
      if Touched(i, virt, count) then Marked(dir[i], base + i) else dir[i])
  }

  ghost predicate Touched(i: nat, virt: nat, count: nat) {
    virt < 1024 * (i + 1) && 1024 * i < virt + count && count > 0
  }

  class Paging {
    const pages: array<Entry>
    const dir: array<DirEntry>
    /** The frame of the first page table. */
    const tables: nat

    ghost predicate Valid() {
      pages.Length == FRAMES && dir.Length == 1024
    }

    /** The tables as they are in the bootloader's zeroed memory. */
    constructor (tables: nat)
      ensures Valid() && this.tables == tables && fresh(pages) && fresh(dir)
      ensures forall p :: 0 <= p < FRAMES ==> !pages[p].present
    {
      pages := new Entry[FRAMES](_ => Entry(false, false, false, false, 0, 0));
      dir := new DirEntry[1024](_ => DirEntry(false, false, 0, 0, 0));
      this.tables := tables;
    }

    /** The inner loop: one table, from entry `first` on. */
    method FillTable(i: nat, first: nat, phys: nat, offset: nat, remaining: nat) returns (pgOffset: nat, count: nat)
      requires Valid() && i < 1024 && first < 1024 && remaining > 0
      modifies pages
      ensures pgOffset == offset + (remaining - count)
      ensures count == if remaining > 1024 - first then remaining - (1024 - first) else 0
      ensures pages[..] == PagesAfter(old(pages[..]), 1024 * i + first, phys + offset, remaining - count)
    {
      pgOffset, count := offset, remaining;
      var j := first;
      while j < 1024 && count > 0
        invariant first <= j <= 1024 && count <= remaining
        invariant pgOffset == offset + (j - first) && count == remaining - (j - first)
        invariant forall p :: 0 <= p < FRAMES ==>
          pages[p] == PageAfter(old(pages[p]), p, 1024 * i + first, phys + offset, j - first)
        decreases 1024 - j
      {
        var p := 1024 * i + j;
        pages[p] := pages[p].(frame := U32(phys + pgOffset) % FRAMES, rw := true, present := true,
                              global := false, user := false);
        FrameBits(phys + pgOffset);
        pgOffset := pgOffset + 1;
        j := j + 1;
        count := count - 1;
      }
    }

    /** Pages past the end of the address space are dropped. */
    method SetupPages(virt: nat, phys: nat, pfnCount: nat)
      requires Valid() && virt < UINT32 && phys < UINT32 && pfnCount < UINT32
      modifies pages, dir
      ensures pages[..] == PagesAfter(old(pages[..]), virt, phys, pfnCount)
      ensures dir[..] == DirAfter(old(dir[..]), tables, virt, pfnCount)
      ensures forall p :: virt <= p < virt + pfnCount && p < FRAMES ==>
        && pages[p].present && pages[p].rw && !pages[p].user && !pages[p].global
        && pages[p].frame == (phys + (p - virt)) % FRAMES
        && dir[p / 1024].present && dir[p / 1024].rw && dir[p / 1024].available == 1
        && dir[p / 1024].frame == (tables + p / 1024) % FRAMES
    {
      var basePgtable := virt / 1024;
      var basePgentry := virt % 1024;
      var pgOffset: nat, count: nat := 0, pfnCount;
      var i := basePgtable;
      while i < 1024 && count > 0
        invariant basePgtable <= i && (i <= 1024 || i == basePgtable)
        invariant count <= pfnCount && pgOffset == pfnCount - count
        invariant if i == basePgtable then pgOffset == 0
                  else pgOffset > 0 && 1024 * (i - 1) < virt + pgOffset <= 1024 * i
        invariant i > basePgtable && count > 0 ==> virt + pgOffset == 1024 * i
        invariant pages[..] == PagesAfter(old(pages[..]), virt, phys, pgOffset)
        invariant forall k :: 0 <= k < 1024 ==>
          dir[k] == if basePgtable <= k < i then Marked(old(dir[k]), tables + k) else old(dir[k])
        decreases 1024 - i
      {
        ghost var offset, before := pgOffset, pages[..];
        var pgentryStart := if i == basePgtable then basePgentry else 0;
        pgOffset, count := FillTable(i, pgentryStart, phys, pgOffset, count);
        PagesJoin(old(pages[..]), virt, phys, offset, pgOffset - offset);
        dir[i] := dir[i].(rw := true, present := true, available := 1, frame := (tables + i) % FRAMES);
        i := i + 1;
      }
      PagesPastEnd(old(pages[..]), virt, phys, pgOffset, pfnCount);
      forall k | 0 <= k < 1024
        ensures basePgtable <= k < i <==> Touched(k, virt, pfnCount)
      {
        TablesTouched(k, virt, pfnCount, pgOffset, i);
      }
      forall p | virt <= p < virt + pfnCount && p < FRAMES
        ensures PageMapped(pages[..], dir[..], tables, p, virt, phys)
      {
        MappedInRange(old(pages[..]), old(dir[..]), tables, virt, phys, pfnCount, p);
      }
    }
  }

  /** Page `p` of a range is mapped, writable and for the kernel only, and its table can be reached. */
  ghost predicate PageMapped(pages: seq<Entry>, dir: seq<DirEntry>, tables: nat, p: nat, virt: nat, phys: nat)
    requires virt <= p < |pages| && p / 1024 < |dir|
  {
    && pages[p].present && pages[p].rw && !pages[p].user && !pages[p].global
    && pages[p].frame == (phys + (p - virt)) % FRAMES
    && dir[p / 1024].present && dir[p / 1024].rw && dir[p / 1024].available == 1
    && dir[p / 1024].frame == (tables + p / 1024) % FRAMES
  }

  lemma MappedInRange(pages: seq<Entry>, dir: seq<DirEntry>, tables: nat, virt: nat, phys: nat, count: nat, p: nat)
    requires virt <= p < virt + count && p < |pages| && p / 1024 < |dir|
    ensures PageMapped(PagesAfter(pages, virt, phys, count), DirAfter(dir, tables, virt, count), tables, p, virt, phys)
  {
    assert Touched(p / 1024, virt, count);
  }

  /** The tables visited by the outer loop are those with a page in the range. */
  lemma TablesTouched(k: nat, virt: nat, pfnCount: nat, pgOffset: nat, i: nat)
    requires k < 1024 && pgOffset <= pfnCount && (pgOffset == pfnCount || i >= 1024)
    requires virt / 1024 <= i && (i <= 1024 || i == virt / 1024)
    requires if i == virt / 1024 then pgOffset == 0 else pgOffset > 0 && 1024 * (i - 1) < virt + pgOffset <= 1024 * i
    ensures virt / 1024 <= k < i <==> Touched(k, virt, pfnCount)
  {
  }

  lemma FrameBits(x: nat)
    ensures U32(x) % FRAMES == x % FRAMES
  {
  }

  /** Mapping a range in two pieces. */
  lemma PagesJoin(pages: seq<Entry>, virt: nat, phys: nat, n: nat, m: nat)
    ensures PagesAfter(PagesAfter(pages, virt, phys, n), virt + n, phys + n, m) == PagesAfter(pages, virt, phys, n + m)
  {
  }

  lemma PagesPastEnd(pages: seq<Entry>, virt: nat, phys: nat, n: nat, count: nat)
    requires n <= count && (n == count || virt + n >= |pages|)
    ensures PagesAfter(pages, virt, phys, n) == PagesAfter(pages, virt, phys, count)
  {
  }

  // ---------------------------------------------------------------------------
  // Boot addresses
  // ---------------------------------------------------------------------------

  function AlignUp(addr: nat, value: nat): (r: nat)
    requires value > 0
  {
    var reminder := addr % value;
    U32(addr + if reminder != 0 then value - reminder else 0)
  }

  function AlignDown(addr: nat, value: nat): (r: nat)
    requires value > 0
  {
    addr - addr % value
  }

  const LOWMEM_PHY_END: nat := 896 * 1024 * 1024

  datatype BootInfo = BootInfo(
    kernelStart: nat, kernelEnd: nat, kernelPhyStart: nat, kernelPhyEnd: nat,
    lowmemPhyStart: nat, lowmemStart: nat, lowmemEnd: nat)

  /** The addresses boot_main computes from the end of the modules and the kernel's virtual range. */
  function Addresses(moduleEnd: nat, virtLow: nat, virtHigh: nat): (b: BootInfo) {
    var phyPageStart := AlignUp(moduleEnd, PAGE_SIZE);
    var virtPageStart := AlignDown(virtLow, PAGE_SIZE);
    var pageOffset := U32(virtPageStart - virtLow);
    var kernelPhyStart := U32(phyPageStart + pageOffset);
    var kernelPhyEnd := U32(kernelPhyStart + U32(virtHigh - virtLow));
    var lowmemPhyStart := AlignUp(kernelPhyEnd, PAGE_SIZE);
    var lowmemStart := AlignUp(virtHigh, PAGE_SIZE);
    BootInfo(virtLow, virtHigh, kernelPhyStart, kernelPhyEnd, lowmemPhyStart, lowmemStart,
             U32(lowmemStart + U32(LOWMEM_PHY_END - lowmemPhyStart)))
  }

  datatype Translation = Fault | Physical(addr: nat)

  /** What the processor does with a virtual address. */
  ghost function Translate(pages: seq<Entry>, dir: seq<DirEntry>, tables: nat, v: nat): (t: Translation)
    requires |pages| == FRAMES && |dir| == 1024 && v < UINT32
  {
    var p := v / PAGE_SIZE;
    var d := dir[p / 1024];
    if d.present && d.frame == (tables + p / 1024) % FRAMES && pages[p].present then
      Physical(pages[p].frame * PAGE_SIZE + v % PAGE_SIZE)
    else Fault
  }

  const LAST_PAGE: nat := (LOWMEM_PHY_END - 1) / PAGE_SIZE

  /** The kernel's pages: as many as there are from its first frame to the end of low memory. */
  function KernelPages(b: BootInfo): (n: nat) {
    U32(LAST_PAGE - b.kernelPhyStart / PAGE_SIZE + 1)
  }

  /**
   What the set-up of the boot page tables needs: the kernel is loaded below the end of low memory,
   is linked above it, and its pages up to the end of low memory do not pass the end of memory.
   */
  ghost predicate Fits(b: BootInfo) {
    && b.kernelPhyStart < LOWMEM_PHY_END
    && LOWMEM_PHY_END <= b.kernelStart < UINT32
    && b.kernelStart / PAGE_SIZE + KernelPages(b) <= FRAMES
  }

  /** Both mappings of __setup_boot_paging, on empty tables. */
  method SetupBootPaging(t: Paging, b: BootInfo)
    requires t.Valid() && Fits(b)
    requires forall p :: 0 <= p < FRAMES ==> !t.pages[p].present
    modifies t.pages, t.dir
    ensures forall v :: 0 <= v < UINT32 ==>
      Translate(t.pages[..], t.dir[..], t.tables, v) == BootTranslation(b, v)
    ensures forall p :: 0 <= p < FRAMES && t.pages[p].present ==>
      t.pages[p].rw && !t.pages[p].user && !t.pages[p].global
  {
    ghost var pages0, dir0 := t.pages[..], t.dir[..];
    var kernelBasePhyPage := b.kernelPhyStart / PAGE_SIZE;
    var kernelBaseVirtPage := b.kernelStart / PAGE_SIZE;
    var lowmemLastPhyPage := (LOWMEM_PHY_END - 1) / PAGE_SIZE;
    var numPages := U32(lowmemLastPhyPage - kernelBasePhyPage + 1);
    t.SetupPages(0, 0, lowmemLastPhyPage);
    t.SetupPages(kernelBaseVirtPage, kernelBasePhyPage, numPages);
    forall v | 0 <= v < UINT32
      ensures Translate(t.pages[..], t.dir[..], t.tables, v) == BootTranslation(b, v)
    {
      TwoRanges(pages0, dir0, t.tables, b, v);
    }
  }

  /** Low memory below its last page at its own addresses, and the kernel's pages; nothing else. */
  ghost function BootTranslation(b: BootInfo, v: nat): (t: Translation) {
    var p, base, phys := v / PAGE_SIZE, b.kernelStart / PAGE_SIZE, b.kernelPhyStart / PAGE_SIZE;
    if p < LAST_PAGE then Physical(v)
    else if base <= p < base + KernelPages(b) then Physical((phys + (p - base)) * PAGE_SIZE + v % PAGE_SIZE)
    else Fault
  }

  lemma TwoRanges(pages: seq<Entry>, dir: seq<DirEntry>, tables: nat, b: BootInfo, v: nat)
    requires |pages| == FRAMES && |dir| == 1024 && v < UINT32 && Fits(b)
    requires forall p :: 0 <= p < FRAMES ==> !pages[p].present
    ensures var base, phys, n := b.kernelStart / PAGE_SIZE, b.kernelPhyStart / PAGE_SIZE, KernelPages(b);
            Translate(PagesAfter(PagesAfter(pages, 0, 0, LAST_PAGE), base, phys, n),
                      DirAfter(DirAfter(dir, tables, 0, LAST_PAGE), tables, base, n), tables, v) ==
            BootTranslation(b, v)
  {
    hide Fits, KernelPages, MappedTo;
    FitsMeans(b);
    var base, phys, n := b.kernelStart / PAGE_SIZE, b.kernelPhyStart / PAGE_SIZE, KernelPages(b);
    var p := v / PAGE_SIZE;
    assert Touched(p / 1024, 0, LAST_PAGE) <== p < LAST_PAGE;
    assert Touched(p / 1024, base, n) <== base <= p < base + n;
    if p < LAST_PAGE {
      MappedFields(pages[p], p);
    } else if base <= p < base + n {
      MappedFields(pages[p], phys + (p - base));
    }
  }

  lemma FitsMeans(b: BootInfo)
    requires Fits(b)
    ensures var base, phys, n := b.kernelStart / PAGE_SIZE, b.kernelPhyStart / PAGE_SIZE, KernelPages(b);
            base > LAST_PAGE && n == LAST_PAGE - phys + 1 && n > 0 && base + n <= FRAMES && phys + n <= FRAMES
  {
  }

  lemma MappedFields(e: Entry, f: int)
    requires 0 <= f < FRAMES
    ensures MappedTo(e, f).present && MappedTo(e, f).frame == f
  {
  }

  /**
   The identity mapping is one page short: the count passed is the number of the last page of low
   memory. Exactly the addresses on that page are not mapped to themselves.
   */
  lemma IdentityMapping(b: BootInfo, v: nat)
    requires Fits(b) && v < LOWMEM_PHY_END
    ensures BootTranslation(b, v) == Physical(v) <==> v / PAGE_SIZE < LAST_PAGE
    ensures v / PAGE_SIZE == LAST_PAGE ==> BootTranslation(b, v) == Fault
  {
  }

  /** The sums in Addresses stay below 2^32. */
  ghost predicate NoOverflow(moduleEnd: nat, virtLow: nat, virtHigh: nat) {
    && virtLow <= virtHigh && virtHigh + PAGE_SIZE < UINT32 && moduleEnd + PAGE_SIZE < UINT32
    && moduleEnd + PAGE_SIZE + (virtHigh - virtLow) + PAGE_SIZE <= LOWMEM_PHY_END
  }

  lemma Wraps(x: int)
    requires -0x1_0000_0000 <= x < 0x2_0000_0000
    ensures U32(x) == if x < 0 then x + 0x1_0000_0000 else if x < 0x1_0000_0000 then x else x - 0x1_0000_0000
  {
  }

  lemma AlignUpIs(x: nat)
    requires x + 4096 < 0x1_0000_0000
    ensures AlignUp(x, PAGE_SIZE) % 4096 == 0 && x <= AlignUp(x, PAGE_SIZE) < x + 4096
  {
  }

  /** Where the kernel goes: as far before the page after the modules as it starts behind a page. */
  lemma PhysicalStart(moduleEnd: nat, virtLow: nat, virtHigh: nat)
    requires NoOverflow(moduleEnd, virtLow, virtHigh)
    ensures var start, page := Addresses(moduleEnd, virtLow, virtHigh).kernelPhyStart, AlignUp(moduleEnd, PAGE_SIZE);
            start == page - virtLow % 4096 || start == page - virtLow % 4096 + 0x1_0000_0000
    ensures virtLow % 4096 == 0 ==>
            Addresses(moduleEnd, virtLow, virtHigh).kernelPhyStart == AlignUp(moduleEnd, PAGE_SIZE)
  {
    hide U32, AlignUp;
    var page, r := AlignUp(moduleEnd, PAGE_SIZE), virtLow % 4096;
    AlignUpIs(moduleEnd);
    Wraps(-r);
    Wraps(page + U32(-r));
  }

  /**
   Kernel addresses translate by the offset between the kernel's virtual and physical start exactly
   when the kernel starts on a page or in the middle of one.
   */
  lemma KernelOffset(moduleEnd: nat, virtLow: nat, virtHigh: nat, v: nat)
    requires NoOverflow(moduleEnd, virtLow, virtHigh) && Fits(Addresses(moduleEnd, virtLow, virtHigh))
    requires var b := Addresses(moduleEnd, virtLow, virtHigh);
             virtLow / 4096 <= v / 4096 < virtLow / 4096 + KernelPages(b)
    ensures var b := Addresses(moduleEnd, virtLow, virtHigh);
            var t := BootTranslation(b, v);
            t.Physical? && (v - t.addr == b.kernelStart - b.kernelPhyStart <==> virtLow % 2048 == 0)
  {
    hide Addresses, AlignUp, Fits, BootTranslation;
    PhysicalStart(moduleEnd, virtLow, virtHigh);
    AlignUpIs(moduleEnd);
    StartsAt(moduleEnd, virtLow, virtHigh);
    var b := Addresses(moduleEnd, virtLow, virtHigh);
    KernelTranslation(b, v);
    OffsetCondition(virtLow, b.kernelPhyStart, AlignUp(moduleEnd, PAGE_SIZE));
  }

  lemma KernelTranslation(b: BootInfo, v: nat)
    requires Fits(b) && b.kernelStart / 4096 <= v / 4096 < b.kernelStart / 4096 + KernelPages(b)
    ensures BootTranslation(b, v).Physical?
    ensures v - BootTranslation(b, v).addr == 4096 * (b.kernelStart / 4096) - 4096 * (b.kernelPhyStart / 4096)
  {
  }

  lemma OffsetCondition(virtLow: nat, start: nat, page: nat)
    requires page % 4096 == 0
    requires start == page - virtLow % 4096 || start == page - virtLow % 4096 + 0x1_0000_0000
    ensures 4096 * (virtLow / 4096) - 4096 * (start / 4096) == virtLow - start <==> virtLow % 2048 == 0
  {
    var r, s := virtLow % 4096, start % 4096;
    assert virtLow == 4096 * (virtLow / 4096) + r && start == 4096 * (start / 4096) + s;
    WholePages(start + r, page);
    SameRest(r, s, start);
    HalfOfPage(virtLow);
  }

  lemma WholePages(x: int, page: nat)
    requires page % 4096 == 0 && (x == page || x == page + 0x1_0000_0000)
    ensures x % 4096 == 0
  {
  }

  lemma HalfOfPage(x: nat)
    ensures x % 2048 == (x % 4096) % 2048
  {
    var h := (x % 4096) / 2048;
    QuotientIs(x, 2 * (x / 4096) + h, (x % 4096) % 2048, 2048);
  }

  lemma StartsAt(moduleEnd: nat, virtLow: nat, virtHigh: nat)
    ensures Addresses(moduleEnd, virtLow, virtHigh).kernelStart == virtLow
  {
  }

  lemma SameRest(r: nat, s: nat, x: nat)
    requires r < 4096 && s == x % 4096 && (x + r) % 4096 == 0
    ensures r == s <==> r % 2048 == 0
  {
  }

  /** With a page-aligned kernel, kernel and low memory are one range with one offset, up to its end. */
  lemma KernelAndLowmem(moduleEnd: nat, virtLow: nat, virtHigh: nat, v: nat)
    requires NoOverflow(moduleEnd, virtLow, virtHigh) && Fits(Addresses(moduleEnd, virtLow, virtHigh))
    requires virtLow % PAGE_SIZE == 0
    requires var b := Addresses(moduleEnd, virtLow, virtHigh); b.kernelStart <= v < b.lowmemEnd
    ensures var b := Addresses(moduleEnd, virtLow, virtHigh);
            var offset := b.kernelStart - b.kernelPhyStart;
            && BootTranslation(b, v) == Physical(v - offset)
            && b.lowmemStart - b.lowmemPhyStart == offset
            && b.lowmemEnd - LOWMEM_PHY_END == offset
  {
    hide Addresses, Fits, KernelPages, BootTranslation, NoOverflow;
    AlignedAddresses(moduleEnd, virtLow, virtHigh);
    LastKernelPage(Addresses(moduleEnd, virtLow, virtHigh), v);
    HalfPage(virtLow);
    KernelOffset(moduleEnd, virtLow, virtHigh, v);
  }

  lemma HalfPage(x: nat)
    requires x % PAGE_SIZE == 0
    ensures x % 2048 == 0
  {
    assert x == 2048 * (2 * (x / 4096));
  }

  lemma LastKernelPage(b: BootInfo, v: nat)
    requires Fits(b) && b.kernelStart % 4096 == 0 && b.kernelPhyStart % 4096 == 0
    requires b.kernelStart <= v < b.kernelStart + LOWMEM_PHY_END - b.kernelPhyStart
    ensures b.kernelStart / 4096 <= v / 4096 < b.kernelStart / 4096 + KernelPages(b)
  {
  }

  lemma AlignedAddresses(moduleEnd: nat, virtLow: nat, virtHigh: nat)
    requires NoOverflow(moduleEnd, virtLow, virtHigh) && virtLow % PAGE_SIZE == 0
    requires Fits(Addresses(moduleEnd, virtLow, virtHigh)) && Addresses(moduleEnd, virtLow, virtHigh).lowmemEnd > 0
    ensures var b := Addresses(moduleEnd, virtLow, virtHigh);
            && b.kernelStart == virtLow
            && b.lowmemStart - b.lowmemPhyStart == b.kernelStart - b.kernelPhyStart
            && b.lowmemEnd - LOWMEM_PHY_END == b.kernelStart - b.kernelPhyStart
            && b.kernelPhyStart % PAGE_SIZE == 0
  {
    hide U32, AlignUp, Fits;
    var page, size := AlignUp(moduleEnd, PAGE_SIZE), virtHigh - virtLow;
    AlignUpIs(moduleEnd);
    PhysicalStart(moduleEnd, virtLow, virtHigh);
    Wraps(size);
    Wraps(page + size);
    AlignUpShift(virtLow, size);
    AlignUpShift(page, size);
    AlignUpIs(size);
    EndFits(Addresses(moduleEnd, virtLow, virtHigh));
    Wraps(LOWMEM_PHY_END - AlignUp(page + size, PAGE_SIZE));
    Wraps(AlignUp(virtHigh, PAGE_SIZE) + (LOWMEM_PHY_END - AlignUp(page + size, PAGE_SIZE)));
  }

  lemma EndFits(b: BootInfo)
    requires Fits(b) && b.kernelStart % 4096 == 0 && b.kernelPhyStart % 4096 == 0
    ensures b.kernelStart + LOWMEM_PHY_END - b.kernelPhyStart <= 0x1_0000_0000
  {
  }

  lemma AlignUpShift(start: nat, size: nat)
    requires start % 4096 == 0 && start + size + 4096 < 0x1_0000_0000
    ensures AlignUp(start + size, PAGE_SIZE) - start == AlignUp(size, PAGE_SIZE)
  {
    assert (start + size) % PAGE_SIZE == size % PAGE_SIZE;
  }
}
