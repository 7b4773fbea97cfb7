/** Loading segments into a user address space: anonymous pages, copies through the user translation,
    and the final permissions. */
module Loader {
  import opened Arith
  import opened Bytes
  import opened Paging
  import opened Addr
  import opened Mapping
  import opened Ranges
  import opened Walker
  import opened Image
  import opened Wrappers

  /** The contents of all frames that hold data rather than page tables. */
  class PhysBytes {
    var bytes: Memory

    constructor (bytes: Memory)
      ensures this.bytes == bytes
    {
      this.bytes := bytes;
    }
  }

  ghost predicate Backed(m: Mode, bytes: Memory) {
    forall a: nat {:trigger a in bytes} :: a < m.PpnLimit() * 4096 ==> a in bytes
  }

  datatype StepResult = Done | Failed(error: MapError) | OutOfMemory

  /** One of the `n` pages from page `first` on is mapped by a leaf of its own with other flags. */
  ghost predicate Occupied(m: Mode, mem: Frames, root: nat, first: nat, n: nat, flags: Flags)
    requires Ram(m, mem) && root < m.PpnLimit()
  {
    exists w: Vpn {:trigger WalkRoot(m, mem, root, w)} :: |w| == m.Levels() && first <= PageNo(w, 0) < first + n &&
      var h := WalkRoot(m, mem, root, w); h.Hit? && h.level == 0 && h.entry.flags != flags + {VALID}
  }

  /** Why mapping the `n` pages from page `first` on failed: there were not enough frames for them, none
      was left for a table, or a page was occupied. */
  ghost predicate StepCause(m: Mode, s: St, s': St, root: nat, r: StepResult, first: nat, n: nat, flags: Flags)
    requires Ram(m, s.mem) && root < m.PpnLimit()
  {
    match r
    case Done => true
    case OutOfMemory => Exhausted(s.gfa, n) && s' == s
    case Failed(e) =>
      || (e == AllocationFailed && Exhausted(s'.gfa, 1))
      || (e == AlreadyMapped && Occupied(m, s.mem, root, first, n, flags))
  }

  lemma {:induction false} RangeStepCause(m: Mode, s: St, t: Tree, s': St, t': Tree, e: MapError, first: nat, n: nat,
      k: nat, ppn: nat, flags: Flags)
    requires RangeEffect(m, s, t, s', t', Err(e), first, n, k, 0, ppn, flags)
    ensures StepCause(m, s, s', t[[]], Failed(e), first, n, flags)
  {
    if e == AlreadyMapped {
      var w: Vpn :| |w| == m.Levels() && PageNo(w, 0) == first + k && Blocked(m, s.mem, t, w, 0, flags);
      assert w[0..] == w;
      assert WalkRoot(m, s.mem, t[[]], w).Hit?;
    }
  }

  lemma {:induction false} StepMaps(m: Mode, s: St, t: Tree, va: nat, pa: nat, n: nat, flags: Flags, l: nat)
    returns (s': St, r: MapResult, k: nat, t': Tree)
    requires Space(m, s, t) && l == 0 && RangeOk(m, va, pa, n, l) && Maps(flags)
    requires RangeClear(m, s.mem, t[[]], Page(m, va, l), n, l)
    ensures (s', r, k) == Ranges.MapPages(m, s, t[[]], va, pa, 0, n, l, flags)
    ensures Kept(m, s, t, s', t')
    ensures r.Ok? ==> RangeRedirected(m, s.mem, s'.mem, t[[]], Page(m, va, 0), n, 0, pa / 4096, flags)
    ensures r.Err? ==> StepCause(m, s, s', t[[]], Failed(r.error), Page(m, va, 0), n, flags)
  {
    s', r, k := MapPagesRefines(m, s, t, va, pa, n, l, flags);
    t' :| RangeEffect(m, s, t, s', t', r, Page(m, va, l), n, k, l, pa / 4096, flags);
    if r.Err? {
      RangeStepCause(m, s, t, s', t', r.error, Page(m, va, 0), n, k, pa / 4096, flags);
    }
  }

  /** The frame was free and no longer is. */
  predicate HandedOut(g: Gfa, g': Gfa, f: nat) { Free(g, f) && !Free(g', f) }

  ghost predicate Taken(g: Gfa, g': Gfa, ppn: nat, n: nat) {
    forall f: nat {:trigger HandedOut(g, g', f)} :: ppn <= f < ppn + n ==> HandedOut(g, g', f)
  }

  ghost predicate DataFrames(g: Gfa, t: Tree, kt: Tree, ppn: nat, n: nat) {
    forall f: nat {:trigger DataFrame(g, t, kt, f)} :: ppn <= f < ppn + n ==> DataFrame(g, t, kt, f)
  }

  /** Frames taken before the tree grew are data frames. */
  lemma {:induction false} TakenData(m: Mode, s: St, t: Tree, s1: St, s2: St, t2: Tree, kt: Tree, ppn: nat, n: nat)
    requires Space(m, s, t) && Fresh(s.gfa, kt) && Kept(m, s1, t, s2, t2) && Taken(s.gfa, s1.gfa, ppn, n)
    ensures DataFrames(s2.gfa, t2, kt, ppn, n) && Taken(s.gfa, s2.gfa, ppn, n)
  {
    forall f: nat {:trigger DataFrame(s2.gfa, t2, kt, f)} | ppn <= f < ppn + n
      ensures DataFrame(s2.gfa, t2, kt, f)
    {
      assert HandedOut(s.gfa, s1.gfa, f);
    }
    forall f: nat {:trigger HandedOut(s.gfa, s2.gfa, f)} | ppn <= f < ppn + n
      ensures HandedOut(s.gfa, s2.gfa, f)
    {
      assert HandedOut(s.gfa, s1.gfa, f);
    }
  }

  lemma {:induction false} AllocTaken(m: Mode, g: Gfa, n: nat)
    requires GfaOk(m, g) && AllocFrames(g, n).Some?
    ensures var (addr, g') := AllocFrames(g, n).value;
      addr % 4096 == 0 && addr / 4096 + n <= m.PpnLimit() && Taken(g, g', addr / 4096, n)
  {
  }

  lemma {:induction false} UserMaps(f: set<SegmentFlag>)
    ensures Maps(UserFlags(f)) <==> f != {}
  {
    if f != {} {
      var x :| x in f;
      match x
      case R => assert R in f;
      case W => assert W in f;
      case X => assert X in f;
    }
  }

  lemma {:induction false} PagesOk(m: Mode, va: nat, pa: nat, n: nat)
    requires pa % 4096 == 0 && pa / 4096 + n <= m.PpnLimit() && Page(m, va, 0) + n <= Span(m.Levels())
    ensures RangeOk(m, va, pa, n, 0)
  {
    Sizes();
    TimesIs(n, Span(0));
  }

  lemma {:induction false} LinearPart(m: Mode, mem: Frames, root: nat, va: nat, pa: nat, n: nat, o: nat, k: nat)
    requires Ram(m, mem) && root < m.PpnLimit() && Linear(m, mem, root, va, pa, n) && o + k <= n
    ensures Linear(m, mem, root, va + o, pa + o, k)
  {
  }

  /** A segment to load: the plan's final address, size in memory and data. */
  datatype LoadSegment = LoadSegment(vaddr: nat, memSize: nat, fileData: seq<Byte>, fileOff: nat,
      flags: set<SegmentFlag>, align: nat) {
    /** Number of pages the segment is rounded out to. */
    function Pages(): nat { PagesMet(vaddr, memSize) }

    /** The bytes of the segment in memory: the file's, then zeros. */
    function Content(): (w: seq<Byte>)
      requires |fileData| <= memSize
      ensures |w| == memSize
    {
      fileData + Zeros(memSize - |fileData|)
    }
  }

  /** The flags a segment is first mapped with, so that it can be filled. */
  function LoadFlags(seg: LoadSegment): Flags { UserFlags(seg.flags + {W}) }

  /** The addresses of the segment do not leave their half of the address space, the data fits, and there
      is some permission unless there is no page. */
  predicate SegmentOk(m: Mode, seg: LoadSegment) {
    && SameHalf(m, seg.vaddr, AlignUp(seg.vaddr + seg.memSize)) && |seg.fileData| <= seg.memSize
    && (seg.flags == {} ==> seg.Pages() == 0)
  }

  lemma {:induction false} Rounding(a: nat, len: nat, start: nat, end: nat)
    requires start == AlignDown(a) && end == AlignUp(a + len)
    ensures start <= a && a + len <= end && end - start == 4096 * PagesMet(a, len)
    ensures start % 4096 == 0 && end % 4096 == 0 && a - start == a % 4096
  {
  }

  lemma {:induction false} Rounded(start: nat, end: nat)
    requires start % 4096 == 0 && end % 4096 == 0 && start <= end
    ensures AlignUp(start + (end - start)) == end && 4096 * PagesMet(start, end - start) == end - start
  {
  }

  lemma {:induction false} SegmentBounds(m: Mode, seg: LoadSegment)
    requires SegmentOk(m, seg)
    ensures var start, end := AlignDown(seg.vaddr), AlignUp(seg.vaddr + seg.memSize);
      && start <= seg.vaddr && seg.vaddr + seg.memSize <= end && end - start == 4096 * seg.Pages()
      && start % 4096 == 0 && seg.vaddr - start == seg.vaddr % 4096
      && SameHalf(m, start, AlignUp(start + (end - start)))
      && Canonical(m, start) && Page(m, start, 0) == Page(m, seg.vaddr, 0)
      && Page(m, start, 0) + seg.Pages() <= Span(m.Levels()) && PagesMet(start, end - start) == seg.Pages()
  {
    var start, end := AlignDown(seg.vaddr), AlignUp(seg.vaddr + seg.memSize);
    PagesMetOk(m, seg.vaddr, seg.memSize);
    Rounding(seg.vaddr, seg.memSize, start, end);
    Rounded(start, end);
    SameHalfDown(m, seg.vaddr, start, end);
  }

  lemma {:induction false} SameHalfDown(m: Mode, a: nat, start: nat, end: nat)
    requires SameHalf(m, a, end) && start <= a && a - start == a % 4096
    ensures SameHalf(m, start, end)
  {
  }

  lemma {:induction false} SegmentStart(m: Mode, seg: LoadSegment) returns (start: nat, o: nat)
    requires SegmentOk(m, seg)
    ensures start + o == seg.vaddr && o == seg.vaddr % 4096 && start % 4096 == 0
    ensures o + seg.memSize <= 4096 * seg.Pages()
    ensures Page(m, start, 0) == Page(m, seg.vaddr, 0) && Page(m, start, 0) + seg.Pages() <= Span(m.Levels())
  {
    start, o := AlignDown(seg.vaddr), seg.vaddr % 4096;
    SegmentBounds(m, seg);
  }

  /** `RiscvAddrSpace`, with the allocator it draws on and the kernel tree it must leave alone. */
  class AddrSpace {
    const walker: PageTableWalker
    const gfa: BumpFrameAllocator
    const data: PhysBytes
    ghost var tree: Tree
    ghost const kt: Tree

    constructor (walker: PageTableWalker, gfa: BumpFrameAllocator, data: PhysBytes, ghost tree: Tree, ghost kt: Tree)
      requires walker.Valid(gfa, tree) && KernelApart(walker.m, walker.State(gfa), tree, kt)
      requires Backed(walker.m, data.bytes)
      ensures Valid() && this.walker == walker && this.gfa == gfa && this.data == data && this.tree == tree
      ensures this.kt == kt
    {
      this.walker, this.gfa, this.data, this.tree, this.kt := walker, gfa, data, tree, kt;
    }

    ghost predicate Valid()
      reads this, walker.ram, gfa, data
    {
      walker.Valid(gfa, tree) && KernelApart(walker.m, walker.State(gfa), tree, kt) && Backed(walker.m, data.bytes)
    }

    /** Maps fresh frames at the `n` pages from `vaddr` on; `ppn` is the first of them. */
    method MapAnonymous(vaddr: nat, len: nat, flags: set<SegmentFlag>, ghost n: nat)
      returns (r: StepResult, ghost ppn: nat)
      requires Valid() && vaddr % 4096 == 0 && len == 4096 * n && flags != {}
      requires Canonical(walker.m, vaddr) && Page(walker.m, vaddr, 0) + n <= Span(walker.m.Levels())
      requires RangeClear(walker.m, walker.ram.frames, walker.rpt, Page(walker.m, vaddr, 0), n, 0)
      modifies this`tree, walker.ram, gfa
      ensures Valid() && Kept(walker.m, old(walker.State(gfa)), old(tree), walker.State(gfa), tree)
      ensures SameWalks(walker.m, old(walker.ram.frames), walker.ram.frames, kt[[]])
      ensures StepCause(walker.m, old(walker.State(gfa)), walker.State(gfa), walker.rpt, r, Page(walker.m, vaddr, 0),
          n, UserFlags(flags))
      ensures r.Done? ==> RangeRedirected(walker.m, old(walker.ram.frames), walker.ram.frames, walker.rpt,
          Page(walker.m, vaddr, 0), n, 0, ppn, UserFlags(flags))
      ensures r.Done? ==> ppn + n <= walker.m.PpnLimit() && Taken(old(gfa.Gfa()), gfa.Gfa(), ppn, n)
      ensures r.Done? ==> DataFrames(gfa.Gfa(), tree, kt, ppn, n)
    {
      ppn := 0;
      if len == 0 {
        return Done, 0;
      }
      var pages := len / 4096;
      assert pages == n;
      ghost var m, s, t := walker.m, walker.State(gfa), tree;
      var frame := gfa.Alloc(pages);
      if frame.None? {
        return OutOfMemory, 0;
      }
      ghost var s1 := walker.State(gfa);
      AllocKept(m, s, t, n);
      AllocTaken(m, s.gfa, n);
      ppn := frame.value / 4096;
      PagesOk(m, vaddr, frame.value, n);
      UserMaps(flags);
      var result := MapPages(vaddr, frame.value, pages, UserFlags(flags));
      KeptTwice(m, s, t, s1, t, walker.State(gfa), tree);
      KernelUnmoved(m, s, t, walker.State(gfa), tree, kt);
      TakenData(m, s, t, s1, walker.State(gfa), tree, kt, ppn, n);
      r := if result.Ok? then Done else Failed(result.error);
    }

    /** The page loop of `MapAnonymous`: it maps like a `map_range`. */
    method MapLoop(vaddr: nat, pa: nat, n: nat, flags: Flags, l: nat) returns (r: MapResult, ghost k: nat)
      requires walker.Usable(gfa) && Canonical(walker.m, vaddr) && l == 0
      requires Page(walker.m, vaddr, l) + n <= Span(walker.m.Levels() - l)
      modifies walker.ram, gfa
      ensures walker.Usable(gfa)
      ensures (walker.State(gfa), r, k) == Ranges.MapPages(walker.m, old(walker.State(gfa)), walker.rpt, vaddr, pa, 0,
          n, l, flags)
    {
      ghost var all := Ranges.MapPages(walker.m, walker.State(gfa), walker.rpt, vaddr, pa, 0, n, l, flags);
      for i := 0 to n
        invariant walker.Usable(gfa)
        invariant Ranges.MapPages(walker.m, walker.State(gfa), walker.rpt, vaddr, pa, i, n, l, flags) == all
      {
        var va, p := walker.NthAddresses(vaddr, pa, i, n, l);
        r := walker.MapNth(va, p, Kb, flags, gfa, vaddr, pa, i, n, l);
        if r.Err? {
          return r, i;
        }
      }
      return Ok, n;
    }

    /** The page loop on the well-formed tree of this space. */
    method MapPages(vaddr: nat, pa: nat, n: nat, flags: Flags) returns (r: MapResult)
      requires walker.Valid(gfa, tree) && Maps(flags) && Canonical(walker.m, vaddr)
      requires RangeOk(walker.m, vaddr, pa, n, 0)
      requires RangeClear(walker.m, walker.ram.frames, walker.rpt, Page(walker.m, vaddr, 0), n, 0)
      modifies this`tree, walker.ram, gfa
      ensures Kept(walker.m, old(walker.State(gfa)), old(tree), walker.State(gfa), tree)
      ensures r.Ok? ==> RangeRedirected(walker.m, old(walker.ram.frames), walker.ram.frames, walker.rpt,
          Page(walker.m, vaddr, 0), n, 0, pa / 4096, flags)
      ensures r.Err? ==> StepCause(walker.m, old(walker.State(gfa)), walker.State(gfa), walker.rpt, Failed(r.error),
          Page(walker.m, vaddr, 0), n, flags)
    {
      var l := 0;
      ghost var s', r', k', t' := StepMaps(walker.m, walker.State(gfa), tree, vaddr, pa, n, flags, l);
      ghost var k;
      r, k := MapLoop(vaddr, pa, n, flags, l);
      assert walker.State(gfa) == s' && r == r';
      tree := t';
    }

    /** Stores `src` at the user addresses from `dst` on, byte by byte through the translation.  No byte
        stored lies in a page table. */
    method CopyToUser(dst: nat, src: seq<Byte>, ghost pa: nat, ghost ppn: nat, ghost n: nat)
      requires Valid() && Linear(walker.m, walker.ram.frames, walker.rpt, dst, pa, |src|)
      requires DataFrames(gfa.Gfa(), tree, kt, ppn, n) && ppn * 4096 <= pa && pa + |src| <= (ppn + n) * 4096
      requires ppn + n <= walker.m.PpnLimit()
      modifies data
      ensures Valid() && Stored(old(data.bytes), data.bytes, pa, src)
    {
      ghost var before := data.bytes;
      for i := 0 to |src|
        invariant Backed(walker.m, data.bytes) && Stored(before, data.bytes, pa, src[..i])
      {
        var p := walker.Translate(dst + i);
        assert p == Some(pa + i);
        assert DataFrame(gfa.Gfa(), tree, kt, p.value / 4096);
        StoredNext(before, data.bytes, pa, src[..i], src[i]);
        data.bytes := data.bytes[p.value := src[i]];
        assert src[..i + 1] == src[..i] + [src[i]];
      }
      assert src[..|src|] == src;
    }

    /** Stores `len` zero bytes at the user addresses from `dst` on. */
    method ZeroUser(dst: nat, len: nat, ghost pa: nat, ghost ppn: nat, ghost n: nat)
      requires Valid() && Linear(walker.m, walker.ram.frames, walker.rpt, dst, pa, len)
      requires DataFrames(gfa.Gfa(), tree, kt, ppn, n) && ppn * 4096 <= pa && pa + len <= (ppn + n) * 4096
      requires ppn + n <= walker.m.PpnLimit()
      modifies data
      ensures Valid() && Stored(old(data.bytes), data.bytes, pa, Zeros(len))
    {
      ghost var before := data.bytes;
      for i := 0 to len
        invariant Backed(walker.m, data.bytes) && Stored(before, data.bytes, pa, Zeros(i))
      {
        var p := walker.Translate(dst + i);
        assert p == Some(pa + i);
        assert DataFrame(gfa.Gfa(), tree, kt, p.value / 4096);
        StoredNext(before, data.bytes, pa, Zeros(i), 0);
        data.bytes := data.bytes[p.value := 0];
        assert Zeros(i + 1) == Zeros(i) + [0];
      }
    }

    /** Gives the pages from `vaddr` on, mapped with `lf` since memory was `mem`, the permissions `flags`.
        This cannot fail. */
    method ProtectRange(vaddr: nat, len: nat, flags: set<SegmentFlag>, ghost n: nat, ghost mem: Frames, ghost ppn: nat,
        ghost lf: set<SegmentFlag>)
      returns (r: StepResult)
      requires Valid() && Ram(walker.m, mem) && (len > 0 ==> flags != {})
      requires SameHalf(walker.m, vaddr, AlignUp(vaddr + len)) && PagesMet(vaddr, len) == n
      requires Page(walker.m, vaddr, 0) + n <= Span(walker.m.Levels())
      requires vaddr % 4096 == 0
      requires RangeRedirected(walker.m, mem, walker.ram.frames, walker.rpt, Page(walker.m, vaddr, 0), n, 0, ppn,
          UserFlags(lf))
      modifies walker.ram
      ensures Valid() && Kept(walker.m, old(walker.State(gfa)), tree, walker.State(gfa), tree)
      ensures SameWalks(walker.m, old(walker.ram.frames), walker.ram.frames, kt[[]])
      ensures r.Done?
      ensures RangeRedirected(walker.m, mem, walker.ram.frames, walker.rpt, Page(walker.m, vaddr, 0), n, 0, ppn,
          UserFlags(flags))
    {
      ghost var m, s, first := walker.m, walker.State(gfa), Page(walker.m, vaddr, 0);
      if len == 0 {
        ghost var mem1 := walker.ram.frames;
        RedirectedNone(m, mem, mem1, walker.rpt, first, ppn, UserFlags(lf), UserFlags(flags));
        return Done;
      }
      UserMaps(flags);
      ghost var k;
      var result;
      result, k := walker.UpdateInTree(vaddr, len, UserFlags(flags), tree);
      UpdateKept(m, s, tree, walker.ram.frames, first, k, UserFlags(flags));
      KernelUnmoved(m, s, tree, walker.State(gfa), tree, kt);
      r := if result.Ok? then Done else Failed(result.error);
      RedirectedOwn(m, mem, s.mem, walker.rpt, first, n, ppn, UserFlags(lf));
      ProtectFlags(lf, flags);
      ProtectRedirects(m, mem, s.mem, walker.ram.frames, walker.rpt, first, n, ppn, UserFlags(lf), UserFlags(flags));
    }

    /** Zeroes what the file does not cover of a segment in the `n` pages mapped from `start` on. */
    method ZeroTail(seg: LoadSegment, ghost start: nat, ghost n: nat, ghost ppn: nat)
      requires Valid() && |seg.fileData| <= seg.memSize && ppn + n <= walker.m.PpnLimit()
      requires start <= seg.vaddr && seg.vaddr + seg.memSize <= start + 4096 * n
      requires Linear(walker.m, walker.ram.frames, walker.rpt, start, ppn * 4096, 4096 * n)
      requires DataFrames(gfa.Gfa(), tree, kt, ppn, n)
      modifies data
      ensures Valid()
      ensures Stored(old(data.bytes), data.bytes, ppn * 4096 + (seg.vaddr - start) + |seg.fileData|,
          Zeros(seg.memSize - |seg.fileData|))
    {
      ghost var o, len := seg.vaddr - start, |seg.fileData|;
      if |seg.fileData| < seg.memSize {
        LinearPart(walker.m, walker.ram.frames, walker.rpt, start, ppn * 4096, 4096 * n, o + len, seg.memSize - len);
        ZeroUser(seg.vaddr + |seg.fileData|, seg.memSize - |seg.fileData|, ppn * 4096 + o + len, ppn, n);
      }
    }

    /** Copies the file bytes of a segment into the `n` pages mapped from `start` on, and zeroes the rest
        of it. */
    method FillSegment(seg: LoadSegment, ghost start: nat, ghost n: nat, ghost ppn: nat)
      requires Valid() && |seg.fileData| <= seg.memSize && ppn + n <= walker.m.PpnLimit()
      requires start <= seg.vaddr && seg.vaddr + seg.memSize <= start + 4096 * n
      requires Linear(walker.m, walker.ram.frames, walker.rpt, start, ppn * 4096, 4096 * n)
      requires DataFrames(gfa.Gfa(), tree, kt, ppn, n)
      modifies data
      ensures Valid() && Stored(old(data.bytes), data.bytes, ppn * 4096 + (seg.vaddr - start), seg.Content())
    {
      ghost var before, o := data.bytes, seg.vaddr - start;
      LinearPart(walker.m, walker.ram.frames, walker.rpt, start, ppn * 4096, 4096 * n, o, |seg.fileData|);
      CopyToUser(seg.vaddr, seg.fileData, ppn * 4096 + o, ppn, n);
      ghost var mid := data.bytes;
      ZeroTail(seg, start, n, ppn);
      StoredBoth(before, mid, data.bytes, ppn * 4096 + o, seg.fileData, Zeros(seg.memSize - |seg.fileData|));
    }

    /** Rounds a segment out to pages. */
    method Round(seg: LoadSegment) returns (start: nat, len: nat)
      requires SegmentOk(walker.m, seg)
      ensures start <= seg.vaddr && seg.vaddr + seg.memSize <= start + len && seg.vaddr - start == seg.vaddr % 4096
      ensures start % 4096 == 0 && len == 4096 * seg.Pages() && PagesMet(start, len) == seg.Pages()
      ensures Canonical(walker.m, start) && SameHalf(walker.m, start, AlignUp(start + len))
      ensures Page(walker.m, start, 0) == Page(walker.m, seg.vaddr, 0)
      ensures Page(walker.m, start, 0) + seg.Pages() <= Span(walker.m.Levels())
    {
      SegmentBounds(walker.m, seg);
      start := AlignDown(seg.vaddr);
      len := AlignUp(seg.vaddr + seg.memSize) - start;
    }

    /** Maps the `n` pages of a segment, writable, and fills them. */
    method MapSegment(seg: LoadSegment, start: nat, len: nat, flags: set<SegmentFlag>,
        ghost n: nat) returns (r: StepResult, ghost ppn: nat)
      requires Valid() && |seg.fileData| <= seg.memSize && start % 4096 == 0 && len == 4096 * n && flags != {}
      requires start <= seg.vaddr && seg.vaddr + seg.memSize <= start + len
      requires Canonical(walker.m, start) && Page(walker.m, start, 0) + n <= Span(walker.m.Levels())
      requires RangeClear(walker.m, walker.ram.frames, walker.rpt, Page(walker.m, start, 0), n, 0)
      modifies this`tree, walker.ram, gfa, data
      ensures Valid() && Kept(walker.m, old(walker.State(gfa)), old(tree), walker.State(gfa), tree)
      ensures SameWalks(walker.m, old(walker.ram.frames), walker.ram.frames, kt[[]])
      ensures StepCause(walker.m, old(walker.State(gfa)), walker.State(gfa), walker.rpt, r, Page(walker.m, start, 0),
          n, UserFlags(flags))
      ensures r.Done? ==> RangeRedirected(walker.m, old(walker.ram.frames), walker.ram.frames, walker.rpt,
          Page(walker.m, start, 0), n, 0, ppn, UserFlags(flags))
      ensures r.Done? ==> ppn + n <= walker.m.PpnLimit() && Taken(old(gfa.Gfa()), gfa.Gfa(), ppn, n)
      ensures r.Done? ==> DataFrames(gfa.Gfa(), tree, kt, ppn, n)
      ensures r.Done? ==> Stored(old(data.bytes), data.bytes, ppn * 4096 + (seg.vaddr - start), seg.Content())
    {
      ghost var m, mem := walker.m, walker.ram.frames;
      r, ppn := MapAnonymous(start, len, flags, n);
      if r.Done? {
        PagesOk(m, start, ppn * 4096, n);
        MapsLinear(m, mem, walker.ram.frames, walker.rpt, start, ppn * 4096, n, UserFlags(flags));
        FillSegment(seg, start, n, ppn);
      }
    }

    /** Loads one segment into the `n` pages from `start` on, first writable and then with its own
        permissions. */
    method LoadRounded(seg: LoadSegment, start: nat, len: nat, ghost n: nat) returns (r: StepResult, ghost ppn: nat)
      requires Valid() && |seg.fileData| <= seg.memSize && start % 4096 == 0 && len == 4096 * n
      requires (n > 0 ==> seg.flags != {})
      requires start <= seg.vaddr && seg.vaddr + seg.memSize <= start + len && PagesMet(start, len) == n
      requires Canonical(walker.m, start) && SameHalf(walker.m, start, AlignUp(start + len))
      requires Page(walker.m, start, 0) + n <= Span(walker.m.Levels())
      requires RangeClear(walker.m, walker.ram.frames, walker.rpt, Page(walker.m, start, 0), n, 0)
      modifies this`tree, walker.ram, gfa, data
      ensures Valid() && Kept(walker.m, old(walker.State(gfa)), old(tree), walker.State(gfa), tree)
      ensures SameWalks(walker.m, old(walker.ram.frames), walker.ram.frames, kt[[]])
      ensures StepCause(walker.m, old(walker.State(gfa)), walker.State(gfa), walker.rpt, r, Page(walker.m, start, 0),
          n, UserFlags(seg.flags + {W}))
      ensures r.Done? ==> RangeRedirected(walker.m, old(walker.ram.frames), walker.ram.frames, walker.rpt,
          Page(walker.m, start, 0), n, 0, ppn, UserFlags(seg.flags))
      ensures r.Done? ==> ppn + n <= walker.m.PpnLimit() && Taken(old(gfa.Gfa()), gfa.Gfa(), ppn, n)
      ensures r.Done? ==> DataFrames(gfa.Gfa(), tree, kt, ppn, n)
      ensures r.Done? ==> Stored(old(data.bytes), data.bytes, ppn * 4096 + (seg.vaddr - start), seg.Content())
    {
      ghost var m, s, t, mem := walker.m, walker.State(gfa), tree, walker.ram.frames;
      var loadFlags := seg.flags + {W};
      assert W in loadFlags;
      r, ppn := MapSegment(seg, start, len, loadFlags, n);
      if r.Done? && seg.flags != loadFlags {
        ghost var s1, t1 := walker.State(gfa), tree;
        r := ProtectRange(start, len, seg.flags, n, mem, ppn, loadFlags);
        KeptTwice(m, s, t, s1, t1, walker.State(gfa), tree);
        SameTwice(m, s.mem, s1.mem, walker.ram.frames, kt[[]]);
      }
    }

    /** Loads one segment: its pages lead to fresh frames that hold its bytes, with its permissions. */
    method LoadSegment(seg: LoadSegment) returns (r: StepResult, ghost ppn: nat)
      requires Valid() && SegmentOk(walker.m, seg)
      requires RangeClear(walker.m, walker.ram.frames, walker.rpt, Page(walker.m, seg.vaddr, 0), seg.Pages(), 0)
      modifies this`tree, walker.ram, gfa, data
      ensures Valid() && Kept(walker.m, old(walker.State(gfa)), old(tree), walker.State(gfa), tree)
      ensures SameWalks(walker.m, old(walker.ram.frames), walker.ram.frames, kt[[]])
      ensures StepCause(walker.m, old(walker.State(gfa)), walker.State(gfa), walker.rpt, r,
          Page(walker.m, seg.vaddr, 0), seg.Pages(), LoadFlags(seg))
      ensures r.Done? ==> SegmentEffect(walker.m, old(walker.State(gfa)), walker.State(gfa), tree, kt, walker.rpt,
          old(data.bytes), data.bytes, seg, ppn)
    {
      var start, len := Round(seg);
      r, ppn := LoadRounded(seg, start, len, seg.Pages());
    }
  }

  /** What loading `seg` into the frames from `ppn` on changes: walks of its pages, and stored bytes. */
  ghost predicate SegmentEffect(m: Mode, s: St, s': St, t': Tree, kt: Tree, root: nat, bytes: Memory, bytes': Memory,
      seg: LoadSegment, ppn: nat) {
    && Ram(m, s.mem) && Ram(m, s'.mem) && root < m.PpnLimit() && |seg.fileData| <= seg.memSize
    && RangeRedirected(m, s.mem, s'.mem, root, Page(m, seg.vaddr, 0), seg.Pages(), 0, ppn, UserFlags(seg.flags))
    && ppn + seg.Pages() <= m.PpnLimit() && Taken(s.gfa, s'.gfa, ppn, seg.Pages())
    && DataFrames(s'.gfa, t', kt, ppn, seg.Pages())
    && Stored(bytes, bytes', ppn * 4096 + seg.vaddr % 4096, seg.Content())
  }

  lemma {:induction false} RedirectedNone(m: Mode, mem: Frames, mem1: Frames, root: nat, first: nat, ppn: nat,
      lf: Flags, pf: Flags)
    requires Ram(m, mem) && Ram(m, mem1) && root < m.PpnLimit()
    requires RangeRedirected(m, mem, mem1, root, first, 0, 0, ppn, lf)
    ensures RangeRedirected(m, mem, mem1, root, first, 0, 0, ppn, pf)
  {
    forall w: Vpn {:trigger Redirect(m, mem, mem1, root, w, first, 0, 0, ppn, pf)} | |w| == m.Levels()
      ensures Redirect(m, mem, mem1, root, w, first, 0, 0, ppn, pf)
    {
      assert Redirect(m, mem, mem1, root, w, first, 0, 0, ppn, lf);
    }
  }
}
