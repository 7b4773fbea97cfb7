/** The kernel address space that `setup_late` builds. */
module Boot {
  import opened Arith
  import opened Paging
  import opened Addr
  import opened Mapping
  import opened Ranges
  import opened Update
  import opened Copy
  import opened Walker
  import opened Bump
  import opened IoMap
  import opened Wrappers

  const PHYS_TO_VIRT_OFFSET: nat := 0x20_0000_0000
  const IOMAP_MEM_OFFSET: nat := 0xffff_ffe0_0000_0000
  const LOAD_OFFSET: nat := 0xffff_ffff_8000_0000
  const HEAP_PREALLOC_SIZE: nat := 0x10_0000
  const HEAP_PREALLOC_BASE: nat := 0xffff_ffdf_fff0_0000

  /** `phys_to_virt` */
  function PhysToVirt(base: nat, pa: nat): nat
    requires base <= pa
  {
    PHYS_TO_VIRT_OFFSET + (pa - base)
  }

  /** The page numbers of the kernel image, the heap and the I/O region. */
  function KernelPage(m: Mode): nat { if m.Sv39? then 0x7f8_0000 else 0xf_fff8_0000 }

  function HeapPage(m: Mode): nat { if m.Sv39? then 0x5ff_ff00 else 0xf_fdff_ff00 }

  function IoPage(m: Mode): nat { if m.Sv39? then 0x600_0000 else 0xf_fe00_0000 }

  /** The room for physical memory in the lower half of the address space, in bytes and in 2 MiB pages. */
  function MemLimit(m: Mode): nat { if m.Sv39? then 0x20_0000_0000 else 0x7fe0_0000_0000 }

  function MemPages(m: Mode): nat { if m.Sv39? then 0x1_0000 else 0x3ff_0000 }

  /** Page numbers of the three regions: kernel image and heap in 4 KiB pages, memory in 2 MiB pages. */
  lemma {:induction false} RegionPages(m: Mode)
    ensures Page(m, LOAD_OFFSET, 0) == KernelPage(m) && Page(m, HEAP_PREALLOC_BASE, 0) == HeapPage(m)
    ensures Page(m, PHYS_TO_VIRT_OFFSET, 1) == 0x1_0000
    ensures Page(m, IOMAP_MEM_OFFSET, 0) == IoPage(m)
    ensures Canonical(m, LOAD_OFFSET) && Canonical(m, HEAP_PREALLOC_BASE) && Canonical(m, PHYS_TO_VIRT_OFFSET)
  {
    assert Page(m, PHYS_TO_VIRT_OFFSET, 1) == Page(m, PHYS_TO_VIRT_OFFSET, 0) / 512;
  }

  /** The memory map: kernel image, physical memory, heap. */
  datatype Layout = Layout(kernelPa: nat, kernelPages: nat, memBase: nat, memPages: nat, heapPa: nat)

  /** What an address translates to in a range of `n` pages of level `l` from page `first` on. */
  function InRange(m: Mode, x: nat, first: nat, n: nat, l: nat, pa: nat): Option<nat> {
    var d := Page(m, x, l) - first;
    if 0 <= d < n then Some(pa + Times(d, Size(l)) + x % Size(l)) else None
  }

  /** The translation function of the kernel address space. */
  function KernelMap(m: Mode, k: Layout, x: nat): Option<nat> {
    var heap := InRange(m, x, HeapPage(m), 0x100, 0, k.heapPa);
    var memory := InRange(m, x, 0x1_0000, k.memPages, 1, k.memBase);
    if heap.Some? then heap else if memory.Some? then memory
      else InRange(m, x, KernelPage(m), k.kernelPages, 0, k.kernelPa)
  }

  /** The regions fit the address space, and their frames an entry. */
  predicate LayoutOk(m: Mode, kernelPa: nat, kernelLen: nat, memBase: nat, memSize: nat) {
    && kernelPa % 4096 == 0 && kernelLen <= 0x8000_0000 && kernelPa + kernelLen <= m.PpnLimit() * 4096
    && memBase % 0x20_0000 == 0 && memSize <= MemLimit(m) && memBase + memSize <= m.PpnLimit() * 4096
  }

  lemma {:induction false} LayoutRanges(m: Mode, kernelPa: nat, kernelLen: nat, memBase: nat, memSize: nat)
    requires LayoutOk(m, kernelPa, kernelLen, memBase, memSize)
    ensures PagesIn(kernelLen, 0) <= 0x8_0000 && PagesIn(memSize, 1) <= MemPages(m)
    ensures RangeOk(m, LOAD_OFFSET, kernelPa, PagesIn(kernelLen, 0), 0)
    ensures RangeOk(m, PHYS_TO_VIRT_OFFSET, memBase, PagesIn(memSize, 1), 1)
    ensures memSize <= Times(PagesIn(memSize, 1), Size(1))
  {
    Sizes();
    RegionPages(m);
    TimesIs(PagesIn(kernelLen, 0), Span(0));
    TimesIs(PagesIn(memSize, 1), Span(1));
    TimesIs(PagesIn(memSize, 1), Size(1));
  }

  lemma {:induction false} HeapRange(m: Mode, heapPa: nat)
    requires heapPa % 4096 == 0 && heapPa + HEAP_PREALLOC_SIZE <= m.PpnLimit() * 4096
    ensures PagesIn(HEAP_PREALLOC_SIZE, 0) == 0x100 && RangeOk(m, HEAP_PREALLOC_BASE, heapPa, 0x100, 0)
  {
    Sizes();
    RegionPages(m);
    TimesIs(0x100, Span(0));
  }

  ghost predicate AllMiss(m: Mode, mem: Frames, root: nat)
    requires Ram(m, mem) && root < m.PpnLimit()
  {
    forall w: Vpn {:trigger WalkRoot(m, mem, root, w)} :: |w| == m.Levels() ==> WalkRoot(m, mem, root, w).Miss?
  }

  lemma {:induction false} ClearWhenEmpty(m: Mode, mem: Frames, root: nat, first: nat, n: nat, l: nat)
    requires Ram(m, mem) && root < m.PpnLimit() && AllMiss(m, mem, root) && l < m.Levels()
    ensures RangeClear(m, mem, root, first, n, l)
  {
    forall w: Vpn {:trigger NoLargerLeaf(m, mem, root, w, l)} | |w| == m.Levels() && first <= PageNo(w, l) < first + n
      ensures NoLargerLeaf(m, mem, root, w, l)
    {
      assert WalkRoot(m, mem, root, w).Miss?;
    }
  }

  /** The 4 KiB kernel pages leave room for 2 MiB pages anywhere. */
  lemma {:induction false} ClearForMemory(m: Mode, mem: Frames, mem1: Frames, root: nat, n1: nat, ppn1: nat, n2: nat)
    requires Ram(m, mem) && Ram(m, mem1) && root < m.PpnLimit() && AllMiss(m, mem, root)
    requires RangeRedirected(m, mem, mem1, root, KernelPage(m), n1, 0, ppn1, KERNEL)
    ensures RangeClear(m, mem1, root, 0x1_0000, n2, 1)
  {
    forall w: Vpn {:trigger NoLargerLeaf(m, mem1, root, w, 1)}
      | |w| == m.Levels() && 0x1_0000 <= PageNo(w, 1) < 0x1_0000 + n2
      ensures NoLargerLeaf(m, mem1, root, w, 1)
    {
      assert Redirect(m, mem, mem1, root, w, KernelPage(m), n1, 0, ppn1, KERNEL);
      assert WalkRoot(m, mem, root, w).Miss?;
    }
  }

  /** The root alone takes no entry. */
  lemma {:induction false} FreeWhenEmpty(m: Mode, mem: Frames, root: nat, t: Tree, first: nat, n: nat)
    requires Wf(m, mem, t) && t[[]] == root && AllMiss(m, mem, root)
    ensures RangeFree(m, mem, t, first, n, 0, KERNEL)
  {
    FreeWhenUnmapped(m, mem, t, first, n, KERNEL);
  }

  /** Tables on the way to the kernel image lie above no page of the direct map. */
  lemma {:induction false} KernelTablesApart(m: Mode, w: Vpn, n1: nat)
    requires |w| == m.Levels() && 0x1_0000 <= PageNo(w, 1) < 0x1_0000 + MemPages(m) && n1 <= 0x8_0000
    ensures !Leads(m, w[1..], KernelPage(m), n1, 0)
  {
    forall v: Vpn {:trigger Suffix(v, w[1..], 0)}
      | |v| == m.Levels() && KernelPage(m) <= PageNo(v, 0) < KernelPage(m) + n1
      ensures !Suffix(v, w[1..], 0)
    {
      PageNoUp(v, 1);
      PageNoSame(v, w, 1);
    }
  }

  lemma {:induction false} FreeForMemory(m: Mode, s: St, t: Tree, s1: St, t1: Tree, n1: nat, ppn1: nat, n2: nat)
    requires RangeEffect(m, s, t, s1, t1, Ok, KernelPage(m), n1, n1, 0, ppn1, KERNEL) && n1 <= 0x8_0000
    requires AllMiss(m, s.mem, t[[]]) && t.Keys == {[]} && n2 <= MemPages(m)
    ensures RangeFree(m, s1.mem, t1, 0x1_0000, n2, 1, KERNEL)
  {
    forall w: Vpn {:trigger Blocked(m, s1.mem, t1, w, 1, KERNEL)}
      | |w| == m.Levels() && 0x1_0000 <= PageNo(w, 1) < 0x1_0000 + n2
      ensures !Blocked(m, s1.mem, t1, w, 1, KERNEL)
    {
      KernelTablesApart(m, w, n1);
      assert |w[1..]| == m.Levels() - 1 && w[1..] !in t;
      assert Redirect(m, s.mem, s1.mem, t[[]], w, KernelPage(m), n1, 0, ppn1, KERNEL);
      assert WalkRoot(m, s.mem, t[[]], w).Miss?;
    }
  }

  /** The heap lies outside the kernel image and the direct map. */
  lemma {:induction false} HeapUnmapped(m: Mode, mem: Frames, mem1: Frames, mem2: Frames, root: nat, n1: nat,
      ppn1: nat, n2: nat, ppn2: nat, w: Vpn)
    requires Ram(m, mem) && Ram(m, mem1) && Ram(m, mem2) && root < m.PpnLimit() && AllMiss(m, mem, root)
    requires RangeRedirected(m, mem, mem1, root, KernelPage(m), n1, 0, ppn1, KERNEL)
    requires RangeRedirected(m, mem1, mem2, root, 0x1_0000, n2, 1, ppn2, KERNEL) && n2 <= MemPages(m)
    requires |w| == m.Levels() && HeapPage(m) <= PageNo(w, 0) < IoPage(m)
    ensures WalkRoot(m, mem2, root, w).Miss?
  {
    PageNoUp(w, 1);
    assert Redirect(m, mem1, mem2, root, w, 0x1_0000, n2, 1, ppn2, KERNEL);
    assert Redirect(m, mem, mem1, root, w, KernelPage(m), n1, 0, ppn1, KERNEL);
    assert WalkRoot(m, mem, root, w).Miss?;
  }

  lemma {:induction false} ReadyForHeap(m: Mode, mem: Frames, mem1: Frames, mem2: Frames, t: Tree, root: nat, n1: nat,
      ppn1: nat, n2: nat, ppn2: nat)
    requires Ram(m, mem) && Ram(m, mem1) && Wf(m, mem2, t) && t[[]] == root < m.PpnLimit() && AllMiss(m, mem, root)
    requires RangeRedirected(m, mem, mem1, root, KernelPage(m), n1, 0, ppn1, KERNEL)
    requires RangeRedirected(m, mem1, mem2, root, 0x1_0000, n2, 1, ppn2, KERNEL) && n2 <= MemPages(m)
    ensures RangeClear(m, mem2, root, HeapPage(m), 0x100, 0) && RangeFree(m, mem2, t, HeapPage(m), 0x100, 0, KERNEL)
  {
    forall w: Vpn {:trigger WalkRoot(m, mem2, root, w)}
      | |w| == m.Levels() && HeapPage(m) <= PageNo(w, 0) < HeapPage(m) + 0x100
      ensures WalkRoot(m, mem2, root, w).Miss?
    {
      HeapUnmapped(m, mem, mem1, mem2, root, n1, ppn1, n2, ppn2, w);
    }
    FreeWhenUnmapped(m, mem2, t, HeapPage(m), 0x100, KERNEL);
  }

  lemma {:induction false} RangeGives(m: Mode, mem: Frames, mem': Frames, root: nat, va: nat, first: nat, n: nat,
      l: nat, pa: nat, x: nat)
    requires Ram(m, mem) && Ram(m, mem') && root < m.PpnLimit() && l < m.Levels() && pa % Size(l) == 0
    requires Page(m, va, l) == first
    requires RangeRedirected(m, mem, mem', root, first, n, l, pa / 4096, KERNEL)
    ensures VirtToPhys(m, mem', root, x)
            == if InRange(m, x, first, n, l, pa).Some? then InRange(m, x, first, n, l, pa)
              else VirtToPhys(m, mem, root, x)
  {
    RangeTranslates(m, mem, mem', root, va, pa, n, l, KERNEL, x);
  }

  /** Three ranges mapped into an empty root make the kernel map. */
  lemma {:induction false} ThreeRanges(m: Mode, mem: Frames, mem1: Frames, mem2: Frames, mem3: Frames, root: nat,
      k: Layout, x: nat)
    requires Ram(m, mem) && Ram(m, mem1) && Ram(m, mem2) && Ram(m, mem3) && root < m.PpnLimit()
    requires AllMiss(m, mem, root)
    requires k.kernelPa % Size(0) == 0 && k.memBase % Size(1) == 0 && k.heapPa % Size(0) == 0
    requires RangeRedirected(m, mem, mem1, root, KernelPage(m), k.kernelPages, 0, k.kernelPa / 4096, KERNEL)
    requires RangeRedirected(m, mem1, mem2, root, 0x1_0000, k.memPages, 1, k.memBase / 4096, KERNEL)
    requires RangeRedirected(m, mem2, mem3, root, HeapPage(m), 0x100, 0, k.heapPa / 4096, KERNEL)
    ensures VirtToPhys(m, mem3, root, x) == KernelMap(m, k, x)
  {
    RegionPages(m);
    RangeGives(m, mem2, mem3, root, HEAP_PREALLOC_BASE, HeapPage(m), 0x100, 0, k.heapPa, x);
    RangeGives(m, mem1, mem2, root, PHYS_TO_VIRT_OFFSET, 0x1_0000, k.memPages, 1, k.memBase, x);
    RangeGives(m, mem, mem1, root, LOAD_OFFSET, KernelPage(m), k.kernelPages, 0, k.kernelPa, x);
    assert WalkRoot(m, mem, root, VpnOf(m, x)).Miss?;
  }

  /** The direct map is self-consistent: the address `phys_to_virt` computes for a physical address in
      memory translates back to it. */
  lemma {:induction false} DirectMap(m: Mode, k: Layout, memSize: nat, pa: nat)
    requires k.memBase % 0x20_0000 == 0 && memSize <= MemLimit(m) && k.memPages == PagesIn(memSize, 1)
    requires k.memBase <= pa < k.memBase + memSize
    ensures KernelMap(m, k, PhysToVirt(k.memBase, pa)) == Some(pa)
  {
    var o := pa - k.memBase;
    var x := PhysToVirt(k.memBase, pa);
    Sizes();
    RegionPages(m);
    TimesIs(k.memPages, Size(1));
    var d, z := Split(o, k.memPages, Size(1));
    TimesIs(d, Size(1));
    ModAdd(PHYS_TO_VIRT_OFFSET, d, z, Size(1));
    OffsetPage(m, PHYS_TO_VIRT_OFFSET, d, z, 1);
    assert Page(m, x, 1) == Page(m, x, 0) / 512;
  }

  /** The frame is mapped where `phys_to_virt` says. */
  ghost predicate Reached(m: Mode, mem: Frames, root: nat, base: nat, f: nat)
    requires Ram(m, mem) && root < m.PpnLimit()
  {
    base <= 4096 * f && forall pa: nat {:trigger PhysToVirt(base, pa)} :: 4096 * f <= pa < 4096 * f + 4096 ==>
      VirtToPhys(m, mem, root, PhysToVirt(base, pa)) == Some(pa)
  }

  /** Every table of the tree can be read and written through the direct map. */
  ghost predicate TablesReached(m: Mode, mem: Frames, t: Tree, base: nat)
    requires Wf(m, mem, t)
  {
    forall p {:trigger t[p]} :: p in t ==> Reached(m, mem, t[[]], base, t[p])
  }

  lemma {:induction false} HandedOut(g: Gfa, g': Gfa, f: nat)
    requires g'.end == g.end && g.ptr <= g'.ptr <= g.end && g'.ptr % 4096 == 0 && Free(g, f) && !Free(g', f)
    ensures g.ptr <= 4096 * f && 4096 * f + 4096 <= g.end
  {
  }

  lemma {:induction false} InMemory(m: Mode, mem: Frames, root: nat, k: Layout, memSize: nat, f: nat)
    requires Ram(m, mem) && root < m.PpnLimit()
    requires k.memBase % 0x20_0000 == 0 && memSize <= MemLimit(m) && k.memPages == PagesIn(memSize, 1)
    requires k.memBase <= 4096 * f && 4096 * f + 4096 <= k.memBase + memSize
    requires forall x: nat :: VirtToPhys(m, mem, root, x) == KernelMap(m, k, x)
    ensures Reached(m, mem, root, k.memBase, f)
  {
    forall pa: nat {:trigger PhysToVirt(k.memBase, pa)} | 4096 * f <= pa < 4096 * f + 4096
      ensures VirtToPhys(m, mem, root, PhysToVirt(k.memBase, pa)) == Some(pa)
    {
      DirectMap(m, k, memSize, pa);
    }
  }

  /** So it is when the frame allocator hands out memory only. */
  lemma {:induction false} TablesInMemory(m: Mode, mem: Frames, t: Tree, k: Layout, memSize: nat, g: Gfa, g': Gfa)
    requires Wf(m, mem, t) && k.memBase % 0x20_0000 == 0 && memSize <= MemLimit(m) && k.memPages == PagesIn(memSize, 1)
    requires k.memBase <= g.ptr && g.end <= k.memBase + memSize
    requires g'.end == g.end && g.ptr <= g'.ptr <= g.end && g'.ptr % 4096 == 0
    requires forall p :: p in t ==> Free(g, t[p]) && !Free(g', t[p])
    requires forall x: nat :: VirtToPhys(m, mem, t[[]], x) == KernelMap(m, k, x)
    ensures TablesReached(m, mem, t, k.memBase)
  {
    forall p {:trigger t[p]} | p in t
      ensures Reached(m, mem, t[[]], k.memBase, t[p])
    {
      HandedOut(g, g', t[p]);
      InMemory(m, mem, t[[]], k, memSize, t[p]);
    }
  }

  /** The region of the I/O mapper is left free. */
  lemma {:induction false} IoRegionVacant(m: Mode, k: Layout, x: nat)
    requires k.memPages <= MemPages(m) && IOMAP_MEM_OFFSET <= x < LOAD_OFFSET
    ensures KernelMap(m, k, x).None?
  {
    SplitHalves(m, x);
    assert IoPage(m) <= Page(m, x, 0) < KernelPage(m);
    assert Page(m, x, 1) == Page(m, x, 0) / 512;
  }

  /** What a kernel address leads to: the image, all of memory and the heap, each rounded up to whole pages,
      lie in one piece at fixed addresses, and nothing else is mapped. */
  predicate KernelSpace(x: nat, r: Option<nat>, kernelStart: nat, kernelLen: nat, memBase: nat, memSize: nat,
      heapPa: nat)
  {
    var image := (kernelLen + 0xfff) / 0x1000 * 0x1000;
    var memory := (memSize + 0x1f_ffff) / 0x20_0000 * 0x20_0000;
    if 0xffff_ffff_8000_0000 <= x < 0xffff_ffff_8000_0000 + image then
      r == Some(x - 0xffff_ffff_8000_0000 + kernelStart)
    else if 0x20_0000_0000 <= x < 0x20_0000_0000 + memory then r == Some(x - 0x20_0000_0000 + memBase)
    else if 0xffff_ffdf_fff0_0000 <= x < 0xffff_ffe0_0000_0000 then r == Some(x - 0xffff_ffdf_fff0_0000 + heapPa)
    else r.None?
  }

  /** A range of 4 KiB pages in the upper half is an interval of addresses. */
  lemma {:induction false} HighRange(m: Mode, x: nat, va: nat, n: nat, pa: nat)
    requires Canonical(m, x) && High(m, va) && va % 4096 == 0 && va + 4096 * n <= WORD
    ensures InRange(m, x, Page(m, va, 0), n, 0, pa) == if va <= x < va + 4096 * n then Some(x - va + pa) else None
  {
    Sizes();
    SplitHalves(m, x);
    HighPage(m, va);
    var d := Page(m, x, 0) - Page(m, va, 0);
    if 0 <= d < n {
      TimesIs(d, Size(0));
      assert x == va + 4096 * d + x % 4096;
    }
  }

  lemma {:induction false} MemoryRange(m: Mode, x: nat, n: nat, pa: nat)
    requires Canonical(m, x) && n <= MemPages(m)
    ensures InRange(m, x, 0x1_0000, n, 1, pa)
         == if 0x20_0000_0000 <= x < 0x20_0000_0000 + 0x20_0000 * n then Some(x - 0x20_0000_0000 + pa) else None
  {
    Sizes();
    SplitHalves(m, x);
    var d := Page(m, x, 1) - 0x1_0000;
    assert Page(m, x, 1) == Page(m, x, 0) / 512;
    if 0 <= d < n {
      TimesIs(d, Size(1));
      assert x == 0x20_0000_0000 + 0x20_0000 * d + x % 0x20_0000;
    }
  }

  /** The three regions, at their addresses. */
  lemma {:induction false} KernelMapIs(m: Mode, k: Layout, kernelLen: nat, memSize: nat, x: nat)
    requires LayoutOk(m, k.kernelPa, kernelLen, k.memBase, memSize) && Canonical(m, x)
    requires k.kernelPages == PagesIn(kernelLen, 0) && k.memPages == PagesIn(memSize, 1)
    ensures KernelSpace(x, KernelMap(m, k, x), k.kernelPa, kernelLen, k.memBase, memSize, k.heapPa)
  {
    Sizes();
    RegionPages(m);
    LayoutRanges(m, k.kernelPa, kernelLen, k.memBase, memSize);
    HighRange(m, x, LOAD_OFFSET, k.kernelPages, k.kernelPa);
    HighRange(m, x, HEAP_PREALLOC_BASE, 0x100, k.heapPa);
    MemoryRange(m, x, k.memPages, k.memBase);
  }

  /** Every leaf lets the kernel read, write and run its page, and nobody else. */
  ghost predicate KernelLeaves(m: Mode, mem: Frames, root: nat)
    requires Ram(m, mem) && root < m.PpnLimit()
  {
    forall w: Vpn {:trigger WalkRoot(m, mem, root, w)} :: |w| == m.Levels() && WalkRoot(m, mem, root, w).Hit? ==>
      WalkRoot(m, mem, root, w).entry.flags == {VALID, READ, WRITE, EXEC, ACCESS, DIRTY, GLOBAL}
  }

  lemma {:induction false} KernelLeavesOn(m: Mode, mem: Frames, mem': Frames, root: nat, first: nat, n: nat, l: nat,
      ppn: nat)
    requires Ram(m, mem) && Ram(m, mem') && root < m.PpnLimit() && l < m.Levels() && KernelLeaves(m, mem, root)
    requires RangeRedirected(m, mem, mem', root, first, n, l, ppn, KERNEL)
    ensures KernelLeaves(m, mem', root)
  {
    forall w: Vpn {:trigger WalkRoot(m, mem', root, w)} | |w| == m.Levels() && WalkRoot(m, mem', root, w).Hit?
      ensures WalkRoot(m, mem', root, w).entry.flags == {VALID, READ, WRITE, EXEC, ACCESS, DIRTY, GLOBAL}
    {
      assert Redirect(m, mem, mem', root, w, first, n, l, ppn, KERNEL);
    }
  }

  /** One `map_range(..).unwrap()` of the sequence, over pages that are free: it can only want for frames. */
  method MapRegion(ghost m: Mode, w: PageTableWalker, va: nat, start: nat, len: nat, size: PageSize,
      gfa: BumpFrameAllocator, ghost t: Tree, ghost first: nat, ghost n: nat, ghost l: nat)
    returns (ok: bool, ghost t': Tree)
    requires w.m == m && w.Valid(gfa, t) && size.Level() == l < m.Levels() && Canonical(m, va)
    requires Page(m, va, l) == first && n == PagesIn(len, l) && RangeOk(m, va, start, n, l)
    requires RangeClear(m, w.ram.frames, w.rpt, first, n, l) && RangeFree(m, w.ram.frames, t, first, n, l, KERNEL)
    modifies w.ram, gfa
    ensures ok ==> RangeEffect(m, old(w.State(gfa)), t, w.State(gfa), t', Ok, first, n, n, l, start / 4096, KERNEL)
    ensures !ok ==> Exhausted(gfa.Gfa(), 1)
  {
    ghost var s, k := w.State(gfa), 0;
    var r;
    r, t', k := w.MapRangeInTree(va, start, start + len, size, KERNEL, gfa, t);
    if r.Err? {
      FailsForFrames(m, s, t, w.State(gfa), t', r.error, first, n, k, l, start / 4096, KERNEL);
    }
    ok := r.Ok?;
  }

  /** The tables of `t'` that are not of `t` come from the free frames. */
  ghost predicate NewFree(g: Gfa, t: Tree, t': Tree) {
    && (forall p :: p in t ==> p in t' && t'[p] == t[p])
    && (forall p :: p in t' && p !in t ==> Free(g, t'[p]))
  }

  lemma {:induction false} NewFreeTwice(g: Gfa, t: Tree, g1: Gfa, t1: Tree, t2: Tree)
    requires NewFree(g, t, t1) && NewFree(g1, t1, t2) && g.ptr <= g1.ptr && g1.end == g.end
    ensures NewFree(g, t, t2)
  {
    forall p | p in t2 && p !in t
      ensures Free(g, t2[p])
    {
      assert p in t1 ==> t2[p] == t1[p];
    }
  }

  /** What the first two regions leave: everything in `s2` that is not in the empty root of `s`. */
  ghost predicate TwoRegions(m: Mode, s: St, t: Tree, s1: St, t1: Tree, s2: St, t2: Tree, k: Layout) {
    && RangeEffect(m, s, t, s1, t1, Ok, KernelPage(m), k.kernelPages, k.kernelPages, 0, k.kernelPa / 4096, KERNEL)
    && RangeEffect(m, s1, t1, s2, t2, Ok, 0x1_0000, k.memPages, k.memPages, 1, k.memBase / 4096, KERNEL)
  }

  /** The kernel image and all of memory, mapped into an empty root. */
  method MapKernelAndMemory(ghost m: Mode, w: PageTableWalker, gfa: BumpFrameAllocator, kernelStart: nat,
      kernelLen: nat, memBase: nat, memSize: nat, ghost t: Tree, ghost k: Layout)
    returns (ok: bool, ghost s1: St, ghost t1: Tree, ghost t2: Tree)
    requires w.m == m && w.Valid(gfa, t) && AllMiss(m, w.ram.frames, w.rpt) && t.Keys == {[]}
    requires LayoutOk(m, kernelStart, kernelLen, memBase, memSize)
    requires k == Layout(kernelStart, PagesIn(kernelLen, 0), memBase, PagesIn(memSize, 1), 0)
    modifies w.ram, gfa
    ensures ok ==> TwoRegions(m, old(w.State(gfa)), t, s1, t1, w.State(gfa), t2, k)
    ensures !ok ==> Exhausted(gfa.Gfa(), 1)
  {
    LayoutRanges(m, kernelStart, kernelLen, memBase, memSize);
    RegionPages(m);
    ghost var s := w.State(gfa);
    ClearWhenEmpty(m, w.ram.frames, w.rpt, KernelPage(m), k.kernelPages, 0);
    FreeWhenEmpty(m, w.ram.frames, w.rpt, t, KernelPage(m), k.kernelPages);
    ok, t1 := MapRegion(m, w, LOAD_OFFSET, kernelStart, kernelLen, Kb, gfa, t, KernelPage(m), k.kernelPages, 0);
    s1, t2 := w.State(gfa), t1;
    if ok {
      ClearForMemory(m, s.mem, s1.mem, w.rpt, k.kernelPages, kernelStart / 4096, k.memPages);
      FreeForMemory(m, s, t, s1, t1, k.kernelPages, kernelStart / 4096, k.memPages);
      ok, t2 := MapRegion(m, w, PHYS_TO_VIRT_OFFSET, memBase, memSize, Mb, gfa, t1, 0x1_0000, k.memPages, 1);
    }
  }

  /** The heap is mapped to the frames at `pa`: nothing but its tables and itself was taken from `g` on. */
  ghost predicate HeapMapped(m: Mode, g: Gfa, mem: Frames, t: Tree, s: St, t': Tree, pa: nat) {
    && Ram(m, mem) && Space(m, s, t') && [] in t && t'[[]] == t[[]] < m.PpnLimit() && pa % 4096 == 0
    && s.gfa.end == g.end && s.gfa.ptr + 4096 * |t| == g.ptr + 4096 * (|t'| + 0x100) && NewFree(g, t, t')
    && RangeRedirected(m, mem, s.mem, t[[]], HeapPage(m), 0x100, 0, pa / 4096, KERNEL)
  }

  lemma {:induction false} HeapTables(m: Mode, g: Gfa, s: St, t: Tree, s': St, t': Tree, pa: nat)
    requires RangeEffect(m, s, t, s', t', Ok, HeapPage(m), 0x100, 0x100, 0, pa / 4096, KERNEL)
    requires s.gfa.end == g.end && s.gfa.ptr == g.ptr + 0x10_0000 && pa % 4096 == 0
    ensures HeapMapped(m, g, s.mem, t, s', t', pa)
  {
  }

  method MapHeapAt(ghost m: Mode, w: PageTableWalker, gfa: BumpFrameAllocator, pa: nat, ghost g: Gfa, ghost t: Tree)
    returns (ok: bool, ghost t': Tree)
    requires w.m == m && w.Valid(gfa, t) && RangeClear(m, w.ram.frames, w.rpt, HeapPage(m), 0x100, 0)
    requires RangeFree(m, w.ram.frames, t, HeapPage(m), 0x100, 0, KERNEL)
    requires pa % 4096 == 0 && pa + 0x10_0000 <= m.PpnLimit() * 4096
    requires gfa.end == g.end && gfa.ptr == g.ptr + 0x10_0000
    modifies w.ram, gfa
    ensures !ok ==> Exhausted(gfa.Gfa(), 0x100)
    ensures ok ==> HeapMapped(m, g, old(w.ram.frames), t, w.State(gfa), t', pa)
  {
    HeapRange(m, pa);
    RegionPages(m);
    ghost var s := w.State(gfa);
    ok, t' := MapRegion(m, w, HEAP_PREALLOC_BASE, pa, HEAP_PREALLOC_SIZE, Kb, gfa, t, HeapPage(m), 0x100, 0);
    if ok {
      HeapTables(m, g, s, t, w.State(gfa), t', pa);
    }
  }

  /** The preallocated heap; None when there are not enough frames for it and its tables. */
  method MapHeap(ghost m: Mode, w: PageTableWalker, gfa: BumpFrameAllocator, ghost t: Tree)
    returns (heap: Option<nat>, ghost t': Tree)
    requires w.m == m && w.Valid(gfa, t) && RangeClear(m, w.ram.frames, w.rpt, HeapPage(m), 0x100, 0)
    requires RangeFree(m, w.ram.frames, t, HeapPage(m), 0x100, 0, KERNEL)
    modifies w.ram, gfa
    ensures heap.None? ==> Exhausted(gfa.Gfa(), 0x100)
    ensures heap.Some? ==>
              HeapMapped(m, old(gfa.Gfa()), old(w.ram.frames), t, w.State(gfa), t', heap.value)
  {
    heap := gfa.Alloc(HEAP_PREALLOC_SIZE / 4096);
    t' := t;
    if heap.Some? {
      var ok;
      ok, t' := MapHeapAt(m, w, gfa, heap.value, old(gfa.Gfa()), t);
      if !ok {
        heap := None;
      }
    }
  }

  lemma {:induction false} RegionsTranslate(m: Mode, s: St, t: Tree, s1: St, t1: Tree, s2: St, t2: Tree, mem3: Frames,
      k: Layout)
    requires TwoRegions(m, s, t, s1, t1, s2, t2, k) && Ram(m, mem3) && AllMiss(m, s.mem, t[[]])
    requires k.kernelPa % 4096 == 0 && k.memBase % 0x20_0000 == 0 && k.heapPa % 4096 == 0
    requires RangeRedirected(m, s2.mem, mem3, t[[]], HeapPage(m), 0x100, 0, k.heapPa / 4096, KERNEL)
    ensures forall x: nat :: VirtToPhys(m, mem3, t[[]], x) == KernelMap(m, k, x)
    ensures KernelLeaves(m, mem3, t[[]])
  {
    Sizes();
    KernelLeavesOn(m, s.mem, s1.mem, t[[]], KernelPage(m), k.kernelPages, 0, k.kernelPa / 4096);
    KernelLeavesOn(m, s1.mem, s2.mem, t[[]], 0x1_0000, k.memPages, 1, k.memBase / 4096);
    KernelLeavesOn(m, s2.mem, mem3, t[[]], HeapPage(m), 0x100, 0, k.heapPa / 4096);
    forall x: nat
      ensures VirtToPhys(m, mem3, t[[]], x) == KernelMap(m, k, x)
    {
      ThreeRanges(m, s.mem, s1.mem, s2.mem, mem3, t[[]], k, x);
    }
  }

  lemma {:induction false} TwoRegionsReady(m: Mode, s: St, t: Tree, s1: St, t1: Tree, s2: St, t2: Tree, k: Layout)
    requires TwoRegions(m, s, t, s1, t1, s2, t2, k) && AllMiss(m, s.mem, t[[]]) && k.memPages <= MemPages(m)
    ensures Space(m, s2, t2) && t2[[]] == t[[]] && s2.gfa.ptr + 4096 * |t| == s.gfa.ptr + 4096 * |t2|
    ensures NewFree(s.gfa, t, t2) && s2.gfa.ptr >= s.gfa.ptr && s2.gfa.end == s.gfa.end
    ensures RangeClear(m, s2.mem, t[[]], HeapPage(m), 0x100, 0)
    ensures RangeFree(m, s2.mem, t2, HeapPage(m), 0x100, 0, KERNEL)
  {
    ReadyForHeap(m, s.mem, s1.mem, s2.mem, t2, t[[]], k.kernelPages, k.kernelPa / 4096, k.memPages, k.memBase / 4096);
  }

  /** All three regions, mapped into the empty root of `w`. */
  method MapLayout(ghost m: Mode, w: PageTableWalker, gfa: BumpFrameAllocator, kernelStart: nat, kernelLen: nat,
      memBase: nat, memSize: nat, ghost t: Tree)
    returns (heap: Option<nat>, ghost t': Tree, ghost k: Layout)
    requires w.m == m && w.Valid(gfa, t) && AllMiss(m, w.ram.frames, w.rpt) && t.Keys == {[]}
    requires LayoutOk(m, kernelStart, kernelLen, memBase, memSize)
    modifies w.ram, gfa
    ensures heap.None? ==> Exhausted(gfa.Gfa(), 0x100)
    ensures heap.Some? ==>
              && w.Valid(gfa, t') && gfa.ptr + 4096 * |t| == old(gfa.ptr) + 4096 * (|t'| + 0x100)
              && NewFree(old(gfa.Gfa()), t, t')
              && k == Layout(kernelStart, PagesIn(kernelLen, 0), memBase, PagesIn(memSize, 1), heap.value)
              && KernelLeaves(m, w.ram.frames, w.rpt)
              && forall x: nat :: VirtToPhys(m, w.ram.frames, w.rpt, x) == KernelMap(m, k, x)
  {
    heap, t', k := None, t, Layout(kernelStart, PagesIn(kernelLen, 0), memBase, PagesIn(memSize, 1), 0);
    ghost var s := w.State(gfa);
    var ok, s1, t1, t2 := MapKernelAndMemory(m, w, gfa, kernelStart, kernelLen, memBase, memSize, t, k);
    if !ok {
      return;
    }
    ghost var s2 := w.State(gfa);
    LayoutRanges(m, kernelStart, kernelLen, memBase, memSize);
    TwoRegionsReady(m, s, t, s1, t1, s2, t2, k);
    heap, t' := MapHeap(m, w, gfa, t2);
    if heap.Some? {
      k := k.(heapPa := heap.value);
      NewFreeTwice(s.gfa, t, s2.gfa, t2, t');
      RegionsTranslate(m, s, t, s1, t1, s2, t2, w.ram.frames, k);
    }
  }

  /** The mapping sequence of `setup_late`: a fresh root, then the kernel image, all of memory and the
      preallocated heap.  Null stands for the panics of `unwrap` and `expect`: frames ran out.  Otherwise
      every frame handed out is a table or part of the heap. */
  method SetupLate(m: Mode, ram: PhysMemory, gfa: BumpFrameAllocator, kernelStart: nat, kernelLen: nat, memBase: nat,
      memSize: nat)
    returns (mapper: PageTableWalker?, ghost t: Tree, ghost k: Layout)
    requires StOk(m, St(ram.frames, gfa.Gfa())) && LayoutOk(m, kernelStart, kernelLen, memBase, memSize)
    modifies ram, gfa
    ensures mapper == null ==> Exhausted(gfa.Gfa(), 0x100)
    ensures mapper != null ==>
              && fresh(mapper) && mapper.m == m && mapper.ram == ram && mapper.Valid(gfa, t)
              && gfa.ptr == old(gfa.ptr) + 4096 * (|t| + 0x100)
              && k == Layout(kernelStart, PagesIn(kernelLen, 0), memBase, PagesIn(memSize, 1), k.heapPa)
              && KernelLeaves(m, ram.frames, mapper.rpt)
              && forall x: nat :: VirtToPhys(m, ram.frames, mapper.rpt, x) == KernelMap(m, k, x)
    ensures mapper != null ==> forall x: nat :: Canonical(m, x) ==>
        KernelSpace(x, VirtToPhys(m, ram.frames, mapper.rpt, x), kernelStart, kernelLen, memBase, memSize, k.heapPa)
    ensures mapper != null && memBase <= old(gfa.ptr) && gfa.end <= memBase + memSize ==>
              TablesReached(m, ram.frames, t, memBase)
  {
    mapper, t, k := null, map[], Layout(0, 0, 0, 0, 0);
    var w := NewRoot(m, ram, gfa);
    if w == null {
      return;
    }
    EmptyRoot(m, w.State(gfa), w.rpt);
    var heap;
    heap, t, k := MapLayout(m, w, gfa, kernelStart, kernelLen, memBase, memSize, map[[] := w.rpt]);
    if heap.Some? {
      mapper := w;
      forall x: nat | Canonical(m, x)
        ensures KernelSpace(x, VirtToPhys(m, ram.frames, w.rpt, x), kernelStart, kernelLen, memBase, memSize, k.heapPa)
      {
        KernelMapIs(m, k, kernelLen, memSize, x);
      }
      if memBase <= old(gfa.ptr) && gfa.end <= memBase + memSize {
        TablesInMemory(m, ram.frames, t, k, memSize, old(gfa.Gfa()), gfa.Gfa());
      }
    }
  }

  lemma {:induction false} IoVacant(m: Mode, mem: Frames, root: nat, k: Layout)
    requires Ram(m, mem) && root < m.PpnLimit() && k.memPages <= MemPages(m)
    requires forall x: nat :: VirtToPhys(m, mem, root, x) == KernelMap(m, k, x)
    ensures Vacant(m, mem, root, IOMAP_MEM_OFFSET, LOAD_OFFSET)
  {
    forall x: nat {:trigger VirtToPhys(m, mem, root, x)} | IOMAP_MEM_OFFSET <= x < LOAD_OFFSET
      ensures VirtToPhys(m, mem, root, x).None?
    {
      IoRegionVacant(m, k, x);
    }
  }

  /** After `setup_late` the I/O region is ready for use. */
  method SetupIo(m: Mode, ram: PhysMemory, gfa: BumpFrameAllocator, kernelStart: nat, kernelLen: nat, memBase: nat,
      memSize: nat)
    returns (io: IoMapper?)
    requires StOk(m, St(ram.frames, gfa.Gfa())) && LayoutOk(m, kernelStart, kernelLen, memBase, memSize)
    modifies ram, gfa
    ensures io == null ==> Exhausted(gfa.Gfa(), 0x100)
    ensures io != null ==> fresh(io) && io.Valid() && io.maps == []
    ensures io != null ==> io.walker.m == m && io.walker.ram == ram && io.gfa == gfa
    ensures io != null ==> io.region.start == 0xffff_ffe0_0000_0000 && io.region.end == 0xffff_ffff_8000_0000
  {
    io := null;
    var mapper, t, k := SetupLate(m, ram, gfa, kernelStart, kernelLen, memBase, memSize);
    if mapper != null {
      LayoutRanges(m, kernelStart, kernelLen, memBase, memSize);
      IoVacant(m, ram.frames, mapper.rpt, k);
      var region := new BumpAllocator(IOMAP_MEM_OFFSET, LOAD_OFFSET);
      io := new IoMapper(mapper, gfa, region, t);
    }
  }
}
