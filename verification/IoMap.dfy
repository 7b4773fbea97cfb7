/** `iomap`: device memory mapped into a virtual region that a bump allocator hands out. */
module IoMap {
  import opened Arith
  import opened Paging
  import opened Addr
  import opened Mapping
  import opened Ranges
  import opened Walker
  import opened Bump
  import opened Wrappers

  datatype IoMapping = IoMapping(va: nat, len: nat, pa: nat) {
    /** Bytes of the pages that hold `[pa, pa + len)`. */
    function Extent(): nat { AlignUp(pa + len) - AlignDown(pa) }
  }

  datatype IoResult = Mapped(mapping: IoMapping) | MappingFailed | Panicked

  /** The upper half of the address space, where page numbers follow addresses. */
  predicate High(m: Mode, a: nat) {
    WORD - VaLimit(m) / 2 <= a < WORD
  }

  lemma {:induction false} HighPage(m: Mode, a: nat)
    requires High(m, a)
    ensures Page(m, a, 0) == (a - (WORD - VaLimit(m))) / 4096
  {
    SplitHalves(m, a);
  }

  /** Nothing is mapped in `[lo, hi)`. */
  ghost predicate Vacant(m: Mode, mem: Frames, root: nat, lo: nat, hi: nat)
    requires Ram(m, mem) && root < m.PpnLimit()
  {
    forall x: nat {:trigger VirtToPhys(m, mem, root, x)} :: lo <= x < hi ==> VirtToPhys(m, mem, root, x).None?
  }

  lemma {:induction false} VacantMisses(m: Mode, mem: Frames, root: nat, lo: nat, hi: nat, va: nat, n: nat, w: Vpn)
    requires Ram(m, mem) && root < m.PpnLimit() && Vacant(m, mem, root, lo, hi)
    requires lo <= va && High(m, va) && va % 4096 == 0 && va + 4096 * n <= hi <= WORD
    requires |w| == m.Levels() && Page(m, va, 0) <= PageNo(w, 0) < Page(m, va, 0) + n
    ensures WalkRoot(m, mem, root, w).Miss?
  {
    var x := va + 4096 * (PageNo(w, 0) - Page(m, va, 0));
    HighPage(m, va);
    HighPage(m, x);
    PageNoOf(m, x, 0);
    PageNoSame(VpnOf(m, x), w, 0);
    assert VpnOf(m, x)[0..] == VpnOf(m, x) && w[0..] == w;
    assert VirtToPhys(m, mem, root, x).None?;
  }

  /** A vacant region can take 4 KiB pages. */
  lemma {:induction false} VacantClear(m: Mode, mem: Frames, t: Tree, lo: nat, hi: nat, va: nat, n: nat, flags: Flags)
    requires Wf(m, mem, t) && Vacant(m, mem, t[[]], lo, hi)
    requires lo <= va && High(m, va) && va % 4096 == 0 && va + 4096 * n <= hi <= WORD
    ensures RangeClear(m, mem, t[[]], Page(m, va, 0), n, 0) && RangeFree(m, mem, t, Page(m, va, 0), n, 0, flags)
  {
    var root := t[[]];
    forall w: Vpn {:trigger WalkRoot(m, mem, root, w)}
      | |w| == m.Levels() && Page(m, va, 0) <= PageNo(w, 0) < Page(m, va, 0) + n
      ensures WalkRoot(m, mem, root, w).Miss?
    {
      VacantMisses(m, mem, root, lo, hi, va, n, w);
    }
    FreeWhenUnmapped(m, mem, t, Page(m, va, 0), n, flags);
  }

  /** Where the walk for the address `x` ends. */
  function LeafOf(m: Mode, mem: Frames, root: nat, x: nat): Hit
    requires Ram(m, mem) && root < m.PpnLimit()
  {
    WalkRoot(m, mem, root, VpnOf(m, x))
  }

  /** The kernel, and nobody else, may read and write the pages of `[va, va + n)`; nobody may run them. */
  ghost predicate DevicePages(m: Mode, mem: Frames, root: nat, va: nat, n: nat)
    requires Ram(m, mem) && root < m.PpnLimit()
  {
    forall x: nat {:trigger LeafOf(m, mem, root, x)} :: va <= x < va + n ==>
      && LeafOf(m, mem, root, x).Hit?
      && LeafOf(m, mem, root, x).entry.flags == {VALID, READ, WRITE, ACCESS, DIRTY, GLOBAL}
  }

  lemma {:induction false} MapsDevice(m: Mode, mem: Frames, mem': Frames, root: nat, va: nat, ppn: nat, n: nat)
    requires Ram(m, mem) && Ram(m, mem') && root < m.PpnLimit()
    requires High(m, va) && va % 4096 == 0 && va + 4096 * n <= WORD
    requires RangeRedirected(m, mem, mem', root, Page(m, va, 0), n, 0, ppn, MMIO)
    ensures DevicePages(m, mem', root, va, 4096 * n)
  {
    forall x: nat {:trigger LeafOf(m, mem', root, x)} | va <= x < va + 4096 * n
      ensures LeafOf(m, mem', root, x).Hit?
      ensures LeafOf(m, mem', root, x).entry.flags == {VALID, READ, WRITE, ACCESS, DIRTY, GLOBAL}
    {
      HighPage(m, va);
      HighPage(m, x);
      PageNoOf(m, x, 0);
      assert Redirect(m, mem, mem', root, VpnOf(m, x), Page(m, va, 0), n, 0, ppn, MMIO);
    }
  }

  /** Outside `[va, va + len)` the upper half translates as before, by the same leaves. */
  ghost predicate Elsewhere(m: Mode, mem: Frames, mem': Frames, root: nat, va: nat, len: nat)
    requires Ram(m, mem) && Ram(m, mem') && root < m.PpnLimit()
  {
    forall x: nat {:trigger VirtToPhys(m, mem', root, x)} {:trigger LeafOf(m, mem', root, x)} ::
      High(m, x) && !(va <= x < va + len) ==>
        && VirtToPhys(m, mem', root, x) == VirtToPhys(m, mem, root, x)
        && LeafOf(m, mem', root, x) == LeafOf(m, mem, root, x)
  }

  lemma {:induction false} MapsElsewhere(m: Mode, mem: Frames, mem': Frames, root: nat, va: nat, pa: nat, n: nat,
      flags: Flags)
    requires Ram(m, mem) && Ram(m, mem') && root < m.PpnLimit()
    requires High(m, va) && va % 4096 == 0 && va + 4096 * n < WORD && pa % Size(0) == 0
    requires RangeRedirected(m, mem, mem', root, Page(m, va, 0), n, 0, pa / 4096, flags)
    ensures Elsewhere(m, mem, mem', root, va, 4096 * n)
  {
    forall x: nat {:trigger VirtToPhys(m, mem', root, x)} | High(m, x) && !(va <= x < va + 4096 * n)
      ensures VirtToPhys(m, mem', root, x) == VirtToPhys(m, mem, root, x)
      ensures LeafOf(m, mem', root, x) == LeafOf(m, mem, root, x)
    {
      HighApart(m, va, n, x);
      PageNoOf(m, x, 0);
      assert Redirect(m, mem, mem', root, VpnOf(m, x), Page(m, va, 0), n, 0, pa / 4096, flags);
      RangeTranslates(m, mem, mem', root, va, pa, n, 0, flags, x);
    }
  }

  lemma {:induction false} HighApart(m: Mode, va: nat, n: nat, x: nat)
    requires High(m, va) && High(m, x) && va % 4096 == 0 && !(va <= x < va + 4096 * n)
    ensures !(Page(m, va, 0) <= Page(m, x, 0) < Page(m, va, 0) + n)
  {
    HighPage(m, va);
    HighPage(m, x);
  }

  lemma {:induction false} LinearStays(m: Mode, mem: Frames, mem': Frames, root: nat, va: nat, len: nat, va': nat,
      pa': nat, n: nat)
    requires Ram(m, mem) && Ram(m, mem') && root < m.PpnLimit() && Elsewhere(m, mem, mem', root, va, len)
    requires Linear(m, mem, root, va', pa', n) && DevicePages(m, mem, root, va', n)
    requires va + len <= va' && High(m, va') && va' + n <= WORD
    ensures Linear(m, mem', root, va', pa', n) && DevicePages(m, mem', root, va', n)
  {
  }

  lemma {:induction false} VacantBelow(m: Mode, mem: Frames, mem': Frames, root: nat, va: nat, len: nat, lo: nat,
      hi: nat)
    requires Ram(m, mem) && Ram(m, mem') && root < m.PpnLimit() && Elsewhere(m, mem, mem', root, va, len)
    requires Vacant(m, mem, root, lo, hi) && High(m, lo) && lo <= va <= hi < WORD
    ensures Vacant(m, mem', root, lo, va)
  {
  }

  /** The I/O mapper: the kernel page mapper, the frame allocator and the virtual region it fills. */
  class IoMapper {
    const walker: PageTableWalker
    const gfa: BumpFrameAllocator
    const region: BumpAllocator
    ghost var tree: Tree
    /** Every mapping made so far. */
    ghost var maps: seq<IoMapping>

    /** Mapping `i` owns the block that was reserved for it and is linear over all its pages. */
    ghost predicate MappingOk(i: nat)
      reads this, walker.ram, region
      requires i < |maps| == |region.live| && Ram(walker.m, walker.ram.frames) && walker.rpt < walker.m.PpnLimit()
    {
      && region.live[i] == Block(maps[i].va, maps[i].Extent())
      && Linear(walker.m, walker.ram.frames, walker.rpt, maps[i].va, AlignDown(maps[i].pa), maps[i].Extent())
      && DevicePages(walker.m, walker.ram.frames, walker.rpt, maps[i].va, maps[i].Extent())
    }

    ghost predicate Valid()
      reads this, walker.ram, gfa, region
    {
      && walker.Valid(gfa, tree) && region.Valid()
      && region.ptr % 4096 == 0 && High(walker.m, region.start) && region.end < WORD
      && Vacant(walker.m, walker.ram.frames, walker.rpt, region.start, region.ptr)
      && |maps| == |region.live|
      && forall i :: 0 <= i < |maps| ==> MappingOk(i)
    }

    constructor (walker: PageTableWalker, gfa: BumpFrameAllocator, region: BumpAllocator, ghost tree: Tree)
      requires walker.Valid(gfa, tree) && region.Valid() && region.live == [] && region.ptr == region.end
      requires region.end % 4096 == 0 && High(walker.m, region.start) && region.end < WORD
      requires Vacant(walker.m, walker.ram.frames, walker.rpt, region.start, region.end)
      ensures Valid() && maps == [] && this.walker == walker && this.gfa == gfa && this.region == region
    {
      this.walker, this.gfa, this.region, this.tree, this.maps := walker, gfa, region, tree, [];
    }

    /** `map_range(..).unwrap()` at the block reserved below `hi`. */
    method MapBlock(va: nat, paStart: nat, len: nat, ghost lo: nat, ghost hi: nat) returns (ok: bool)
      requires walker.Valid(gfa, tree) && Vacant(walker.m, walker.ram.frames, walker.rpt, lo, hi)
      requires lo <= va && High(walker.m, va) && va % 4096 == 0 && va + len <= hi < WORD
      requires paStart % 4096 == 0 && len % 4096 == 0 && paStart + len <= walker.m.PpnLimit() * 4096
      modifies this`tree, walker.ram, gfa
      ensures walker.Valid(gfa, tree) && (!ok ==> Exhausted(gfa.Gfa(), 1))
      ensures ok ==> Linear(walker.m, walker.ram.frames, walker.rpt, va, paStart, len)
      ensures ok ==> DevicePages(walker.m, walker.ram.frames, walker.rpt, va, len)
      ensures ok ==> Elsewhere(walker.m, old(walker.ram.frames), walker.ram.frames, walker.rpt, va, len)
    {
      ghost var mem, m, n, s := walker.ram.frames, walker.m, len / 4096, walker.State(gfa);
      BlockPages(m, va, paStart, len);
      VacantClear(m, mem, tree, lo, hi, va, n, MMIO);
      var r, t, k := walker.MapRangeInTree(va, paStart, paStart + len, Kb, MMIO, gfa, tree);
      if r.Err? {
        FailsForFrames(m, s, tree, walker.State(gfa), t, r.error, Page(m, va, 0), n, k, 0, paStart / 4096, MMIO);
      }
      tree := t;
      if r.Ok? {
        MapsLinear(m, mem, walker.ram.frames, walker.rpt, va, paStart, n, MMIO);
        MapsDevice(m, mem, walker.ram.frames, walker.rpt, va, paStart / 4096, n);
        MapsElsewhere(m, mem, walker.ram.frames, walker.rpt, va, paStart, n, MMIO);
      }
      ok := r.Ok?;
    }

    /** Maps the pages that hold the `len` bytes from `base` on; refused exactly when the region has no room
        for them, and a panic only when no frame is left for a table. */
    method Iomap(base: nat, len: nat) returns (r: IoResult)
      requires Valid() && len > 0 && AlignUp(base + len) <= walker.m.PpnLimit() * 4096
      modifies this, walker.ram, gfa, region
      ensures r.Panicked? || Valid()
      ensures r.Panicked? ==> Exhausted(gfa.Gfa(), 1)
      ensures r.MappingFailed? <==>
        !exists b: nat :: b % 4096 == 0 && region.start <= b
            && b + ((base + len + 0xfff) / 0x1000 - base / 0x1000) * 0x1000 <= old(region.ptr)
      ensures r.MappingFailed? ==> maps == old(maps) && walker.ram.frames == old(walker.ram.frames)
      ensures r.Mapped? ==> r.mapping == IoMapping(region.ptr, len, base) && maps == old(maps) + [r.mapping]
    {
      var paStart := AlignDown(base);
      var mapLen := AlignUp(base + len) - paStart;
      ghost var hi, mem, m := region.ptr, walker.ram.frames, walker.m;
      var va := region.Alloc(mapLen, 4096);
      if va.None? {
        forall i | 0 <= i < |maps|
          ensures MappingOk(i)
        {
          assert old(MappingOk(i));
        }
        return MappingFailed;
      }
      var ok := MapBlock(va.value, paStart, mapLen, region.start, hi);
      if !ok {
        return Panicked;
      }
      r := Mapped(IoMapping(va.value, len, base));
      maps := maps + [r.mapping];
      VacantBelow(m, mem, walker.ram.frames, walker.rpt, va.value, mapLen, region.start, hi);
      forall i | 0 <= i < |old(maps)|
        ensures MappingOk(i)
      {
        assert old(MappingOk(i));
        LinearStays(m, mem, walker.ram.frames, walker.rpt, va.value, mapLen, maps[i].va, AlignDown(maps[i].pa),
          maps[i].Extent());
      }
    }
  }

  lemma {:induction false} BlockPages(m: Mode, va: nat, pa: nat, len: nat)
    requires High(m, va) && va % 4096 == 0 && va + len < WORD
    requires pa % 4096 == 0 && len % 4096 == 0 && pa + len <= m.PpnLimit() * 4096
    ensures PagesIn(len, 0) == len / 4096 && RangeOk(m, va, pa, len / 4096, 0) && Canonical(m, va)
  {
    Sizes();
    TimesIs(len / 4096, Span(0));
    HighPage(m, va);
  }

  /** In every state the mapper can reach, two mappings never share a virtual address. */
  lemma {:induction false} MappingsApart(io: IoMapper, i: nat, j: nat, x: nat)
    requires io.Valid() && i < j < |io.maps|
    requires io.maps[i].va <= x < io.maps[i].va + io.maps[i].Extent()
    ensures !(io.maps[j].va <= x < io.maps[j].va + io.maps[j].Extent())
  {
    assert io.MappingOk(i) && io.MappingOk(j);
    assert Above(io.region.live[i], io.region.live[j]);
  }

  /** All the requested bytes are mapped, for the kernel to read and write.  The address a mapping reports leads
      to the requested base if and only if the base is page aligned; then every offset up to the length does. */
  lemma {:induction false} MappingExact(io: IoMapper, i: nat)
    requires io.Valid() && i < |io.maps| && io.maps[i].len > 0
    ensures var d := io.maps[i];
            && Linear(io.walker.m, io.walker.ram.frames, io.walker.rpt, d.va + d.pa % 4096, d.pa, d.len)
            && DevicePages(io.walker.m, io.walker.ram.frames, io.walker.rpt, d.va + d.pa % 4096, d.len)
    ensures VirtToPhys(io.walker.m, io.walker.ram.frames, io.walker.rpt, io.maps[i].va) == Some(io.maps[i].pa) <==>
        io.maps[i].pa % 4096 == 0
    ensures io.maps[i].pa % 4096 == 0 ==>
              Linear(io.walker.m, io.walker.ram.frames, io.walker.rpt, io.maps[i].va, io.maps[i].pa, io.maps[i].len)
  {
    assert io.MappingOk(i);
  }

  /** Any unaligned request that is granted gets an address that does not lead to its base. */
  method IomapUnaligned(io: IoMapper, base: nat, len: nat) returns (r: IoResult)
    requires io.Valid() && len > 0 && AlignUp(base + len) <= io.walker.m.PpnLimit() * 4096 && base % 4096 != 0
    modifies io, io.walker.ram, io.gfa, io.region
    ensures r.Mapped? ==> io.Valid() && r.mapping.pa == base
                          && VirtToPhys(io.walker.m, io.walker.ram.frames, io.walker.rpt, r.mapping.va) != Some(base)
  {
    r := io.Iomap(base, len);
    if r.Mapped? {
      assert io.maps[|io.maps| - 1] == r.mapping;
      MappingExact(io, |io.maps| - 1);
    }
  }
}
