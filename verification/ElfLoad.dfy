/** Loading a whole plan: every segment ends up with its bytes and permissions, nothing else moves. */
module ElfLoad {
  import opened Bytes
  import opened Paging
  import opened Addr
  import opened Mapping
  import opened Ranges
  import opened Image
  import opened Loader
  import opened Wrappers

  predicate InSegment(m: Mode, seg: LoadSegment, w: Vpn) {
    Page(m, seg.vaddr, 0) <= PageNo(w, 0) < Page(m, seg.vaddr, 0) + seg.Pages()
  }

  /** The two segments share no page. */
  predicate PagesApart(m: Mode, a: LoadSegment, b: LoadSegment) {
    || Page(m, a.vaddr, 0) + a.Pages() <= Page(m, b.vaddr, 0)
    || Page(m, b.vaddr, 0) + b.Pages() <= Page(m, a.vaddr, 0)
  }

  /** Every segment can be loaded, shares no page with another, and lies below no larger leaf. */
  ghost predicate PlanOk(m: Mode, mem: Frames, root: nat, segs: seq<LoadSegment>)
    requires Ram(m, mem) && root < m.PpnLimit()
  {
    && (forall i {:trigger segs[i]} :: 0 <= i < |segs| ==>
          SegmentOk(m, segs[i]) && RangeClear(m, mem, root, Page(m, segs[i].vaddr, 0), segs[i].Pages(), 0))
    && (forall i, j {:trigger segs[i], segs[j]} :: 0 <= i < j < |segs| ==> PagesApart(m, segs[i], segs[j]))
  }

  /** The pages of the segment lead to the frames from `ppn` on, with its permissions. */
  ghost predicate MappedAt(m: Mode, mem: Frames, root: nat, seg: LoadSegment, ppn: nat)
    requires Ram(m, mem) && root < m.PpnLimit()
  {
    RangeRedirected(m, mem, mem, root, Page(m, seg.vaddr, 0), seg.Pages(), 0, ppn, UserFlags(seg.flags))
  }

  ghost predicate HeldAt(bytes: Memory, pa: nat, w: seq<Byte>) {
    forall a: nat {:trigger a in bytes} :: pa <= a < pa + |w| && a in bytes ==> bytes[a] == w[a - pa]
  }

  /** Where the segment's first byte lies in memory. */
  function FirstByte(seg: LoadSegment, ppn: nat): nat { ppn * 4096 + seg.vaddr % 4096 }

  ghost predicate LoadedAt(m: Mode, s: St, t: Tree, kt: Tree, root: nat, bytes: Memory, seg: LoadSegment, ppn: nat)
    requires Ram(m, s.mem) && root < m.PpnLimit()
  {
    && |seg.fileData| <= seg.memSize && MappedAt(m, s.mem, root, seg, ppn)
    && HeldAt(bytes, FirstByte(seg, ppn), seg.Content())
    && ppn + seg.Pages() <= m.PpnLimit() && DataFrames(s.gfa, t, kt, ppn, seg.Pages())
  }

  predicate Outside(m: Mode, segs: seq<LoadSegment>, k: nat, w: Vpn)
    requires k <= |segs|
  {
    forall i {:trigger segs[i]} :: 0 <= i < k ==> !InSegment(m, segs[i], w)
  }

  ghost predicate SameOutside(m: Mode, mem: Frames, mem': Frames, root: nat, segs: seq<LoadSegment>, k: nat)
    requires Ram(m, mem) && Ram(m, mem') && root < m.PpnLimit() && k <= |segs|
  {
    forall w: Vpn {:trigger Outside(m, segs, k, w)} :: |w| == m.Levels() && Outside(m, segs, k, w) ==>
      WalkRoot(m, mem', root, w) == WalkRoot(m, mem, root, w)
  }

  /** The first `k` segments are loaded, and addresses outside them walk as in `mem`. */
  ghost predicate Progress(m: Mode, mem: Frames, s: St, t: Tree, kt: Tree, root: nat, bytes: Memory,
      segs: seq<LoadSegment>, k: nat, ppns: seq<nat>) {
    && Ram(m, mem) && Ram(m, s.mem) && root < m.PpnLimit() && k <= |segs| && |ppns| == k
    && (forall i {:trigger ppns[i]} :: 0 <= i < k ==> LoadedAt(m, s, t, kt, root, bytes, segs[i], ppns[i]))
    && SameOutside(m, mem, s.mem, root, segs, k)
  }

  /** Pages redirected elsewhere do not move a mapped segment. */
  lemma {:induction false} StaysMapped(m: Mode, mem: Frames, mem': Frames, root: nat, a: LoadSegment, ppn: nat,
      b: LoadSegment, ppn': nat)
    requires Ram(m, mem) && Ram(m, mem') && root < m.PpnLimit() && PagesApart(m, a, b) && MappedAt(m, mem, root, a, ppn)
    requires RangeRedirected(m, mem, mem', root, Page(m, b.vaddr, 0), b.Pages(), 0, ppn', UserFlags(b.flags))
    ensures MappedAt(m, mem', root, a, ppn)
  {
    var first, n, flags := Page(m, a.vaddr, 0), a.Pages(), UserFlags(a.flags);
    forall w: Vpn {:trigger Redirect(m, mem', mem', root, w, first, n, 0, ppn, flags)} | |w| == m.Levels()
      ensures Redirect(m, mem', mem', root, w, first, n, 0, ppn, flags)
    {
      assert Redirect(m, mem, mem, root, w, first, n, 0, ppn, flags);
      assert Redirect(m, mem, mem', root, w, Page(m, b.vaddr, 0), b.Pages(), 0, ppn', UserFlags(b.flags));
    }
  }

  lemma {:induction false} NowMapped(m: Mode, mem: Frames, mem': Frames, root: nat, seg: LoadSegment, ppn: nat)
    requires Ram(m, mem) && Ram(m, mem') && root < m.PpnLimit()
    requires RangeRedirected(m, mem, mem', root, Page(m, seg.vaddr, 0), seg.Pages(), 0, ppn, UserFlags(seg.flags))
    ensures MappedAt(m, mem', root, seg, ppn)
  {
    var first, n, flags := Page(m, seg.vaddr, 0), seg.Pages(), UserFlags(seg.flags);
    forall w: Vpn {:trigger Redirect(m, mem', mem', root, w, first, n, 0, ppn, flags)} | |w| == m.Levels()
      ensures Redirect(m, mem', mem', root, w, first, n, 0, ppn, flags)
    {
      assert Redirect(m, mem, mem', root, w, first, n, 0, ppn, flags);
    }
  }

  /** The bytes of a segment lie within its frames. */
  lemma {:induction false} WithinFrames(m: Mode, seg: LoadSegment, ppn: nat)
    requires SegmentOk(m, seg)
    ensures ppn * 4096 <= FirstByte(seg, ppn) && FirstByte(seg, ppn) + seg.memSize <= (ppn + seg.Pages()) * 4096
  {
    var start, o := SegmentStart(m, seg);
  }

  /** Bytes stored in frames that were free do not change a segment loaded before. */
  lemma {:induction false} StaysHeld(m: Mode, s: St, s': St, t: Tree, kt: Tree, bytes: Memory, bytes': Memory,
      a: LoadSegment, ppn: nat, b: LoadSegment, ppn': nat)
    requires SegmentOk(m, a) && SegmentOk(m, b) && HeldAt(bytes, FirstByte(a, ppn), a.Content())
    requires DataFrames(s.gfa, t, kt, ppn, a.Pages()) && Taken(s.gfa, s'.gfa, ppn', b.Pages())
    requires Stored(bytes, bytes', FirstByte(b, ppn'), b.Content())
    ensures HeldAt(bytes', FirstByte(a, ppn), a.Content())
  {
    WithinFrames(m, a, ppn);
    WithinFrames(m, b, ppn');
    forall x: nat {:trigger x in bytes'} | FirstByte(a, ppn) <= x < FirstByte(a, ppn) + |a.Content()| && x in bytes'
      ensures bytes'[x] == a.Content()[x - FirstByte(a, ppn)]
    {
      assert x in bytes;
      var f := x / 4096;
      assert DataFrame(s.gfa, t, kt, f);
      assert ppn' <= f < ppn' + b.Pages() ==> HandedOut(s.gfa, s'.gfa, f);
    }
  }

  lemma {:induction false} OutsideStep(m: Mode, mem: Frames, s: St, s': St, root: nat, segs: seq<LoadSegment>, k: nat,
      ppn: nat)
    requires Ram(m, mem) && Ram(m, s.mem) && Ram(m, s'.mem) && root < m.PpnLimit() && k < |segs|
    requires SameOutside(m, mem, s.mem, root, segs, k)
    requires RangeRedirected(m, s.mem, s'.mem, root, Page(m, segs[k].vaddr, 0), segs[k].Pages(), 0, ppn,
        UserFlags(segs[k].flags))
    ensures SameOutside(m, mem, s'.mem, root, segs, k + 1)
  {
    forall w: Vpn {:trigger Outside(m, segs, k + 1, w)} | |w| == m.Levels() && Outside(m, segs, k + 1, w)
      ensures WalkRoot(m, s'.mem, root, w) == WalkRoot(m, mem, root, w)
    {
      assert Outside(m, segs, k, w);
      assert !InSegment(m, segs[k], w);
      assert Redirect(m, s.mem, s'.mem, root, w, Page(m, segs[k].vaddr, 0), segs[k].Pages(), 0, ppn,
        UserFlags(segs[k].flags));
    }
  }

  /** One more segment. */
  lemma {:induction false} ProgressStep(m: Mode, mem: Frames, s: St, t: Tree, s': St, t': Tree, kt: Tree, root: nat,
      bytes: Memory, bytes': Memory, segs: seq<LoadSegment>, k: nat, ppns: seq<nat>, ppn: nat)
    requires Progress(m, mem, s, t, kt, root, bytes, segs, k, ppns) && k < |segs| && PlanOk(m, mem, root, segs)
    requires Kept(m, s, t, s', t') && SegmentEffect(m, s, s', t', kt, root, bytes, bytes', segs[k], ppn)
    ensures Progress(m, mem, s', t', kt, root, bytes', segs, k + 1, ppns + [ppn])
  {
    OutsideStep(m, mem, s, s', root, segs, k, ppn);
    NowMapped(m, s.mem, s'.mem, root, segs[k], ppn);
    forall i {:trigger (ppns + [ppn])[i]} | 0 <= i < k + 1
      ensures LoadedAt(m, s', t', kt, root, bytes', segs[i], (ppns + [ppn])[i])
    {
      if i < k {
        assert LoadedAt(m, s, t, kt, root, bytes, segs[i], ppns[i]);
        assert PagesApart(m, segs[i], segs[k]);
        LoadedStays(m, s, t, s', t', kt, root, bytes, bytes', segs[i], ppns[i], segs[k], ppn);
      }
    }
  }

  lemma {:induction false} LoadedStays(m: Mode, s: St, t: Tree, s': St, t': Tree, kt: Tree, root: nat, bytes: Memory,
      bytes': Memory, a: LoadSegment, ppn: nat, b: LoadSegment, ppn': nat)
    requires Kept(m, s, t, s', t') && root < m.PpnLimit() && LoadedAt(m, s, t, kt, root, bytes, a, ppn)
    requires SegmentOk(m, a) && SegmentOk(m, b) && PagesApart(m, a, b)
    requires SegmentEffect(m, s, s', t', kt, root, bytes, bytes', b, ppn')
    ensures LoadedAt(m, s', t', kt, root, bytes', a, ppn)
  {
    StaysMapped(m, s.mem, s'.mem, root, a, ppn, b, ppn');
    StaysHeld(m, s, s', t, kt, bytes, bytes', a, ppn, b, ppn');
    forall f: nat {:trigger DataFrame(s'.gfa, t', kt, f)} | ppn <= f < ppn + a.Pages()
      ensures DataFrame(s'.gfa, t', kt, f)
    {
      assert DataFrame(s.gfa, t, kt, f);
      DataFrameStays(m, s, t, s', t', kt, f);
    }
  }

  /** The next segment still lies below no larger leaf. */
  lemma {:induction false} NextClear(m: Mode, mem: Frames, s: St, root: nat, segs: seq<LoadSegment>, k: nat)
    requires Ram(m, mem) && Ram(m, s.mem) && root < m.PpnLimit() && k < |segs| && PlanOk(m, mem, root, segs)
    requires SameOutside(m, mem, s.mem, root, segs, k)
    ensures RangeClear(m, s.mem, root, Page(m, segs[k].vaddr, 0), segs[k].Pages(), 0)
  {
    var first, n := Page(m, segs[k].vaddr, 0), segs[k].Pages();
    forall w: Vpn {:trigger NoLargerLeaf(m, s.mem, root, w, 0)} | |w| == m.Levels() && first <= PageNo(w, 0) < first + n
      ensures NoLargerLeaf(m, s.mem, root, w, 0)
    {
      NextOutside(m, segs, k, w);
      assert NoLargerLeaf(m, mem, root, w, 0);
    }
  }

  datatype LoadResult = Loaded | WxRefused | LoadFailed(error: MapError) | Panicked

  predicate Wx(seg: LoadSegment) { W in seg.flags && X in seg.flags }

  /** A page of the segment is already mapped, with other flags than it would be filled under. */
  ghost predicate SegmentOccupied(m: Mode, mem: Frames, root: nat, seg: LoadSegment)
    requires Ram(m, mem) && root < m.PpnLimit()
  {
    Occupied(m, mem, root, Page(m, seg.vaddr, 0), seg.Pages(), LoadFlags(seg))
  }

  /** Why loading failed, where `mem` is memory at the start and `g` the allocator at the end. */
  ghost predicate LoadCause(m: Mode, mem: Frames, root: nat, g: Gfa, segs: seq<LoadSegment>, allowWx: bool,
      r: LoadResult)
    requires Ram(m, mem) && root < m.PpnLimit()
  {
    match r
    case Loaded => true
    case WxRefused => !allowWx && exists i {:trigger segs[i]} :: 0 <= i < |segs| && Wx(segs[i])
    case LoadFailed(e) =>
      || (e == AllocationFailed && Exhausted(g, 1))
      || (e == AlreadyMapped &&
          exists i {:trigger segs[i]} :: 0 <= i < |segs| && SegmentOccupied(m, mem, root, segs[i]))
    case Panicked => exists i {:trigger segs[i]} :: 0 <= i < |segs| && Exhausted(g, segs[i].Pages())
  }

  /** What the step for segment `k` comes to for the whole load. */
  function LoadResultOf(step: StepResult): LoadResult {
    match step
    case Done => Loaded
    case Failed(e) => LoadFailed(e)
    case OutOfMemory => Panicked
  }

  /** Pages of the next segment walk as they did at the start. */
  lemma {:induction false} NextOutside(m: Mode, segs: seq<LoadSegment>, k: nat, w: Vpn)
    requires k < |segs| && InSegment(m, segs[k], w)
    requires forall i, j {:trigger segs[i], segs[j]} :: 0 <= i < j < |segs| ==> PagesApart(m, segs[i], segs[j])
    ensures Outside(m, segs, k, w)
  {
    forall i {:trigger segs[i]} | 0 <= i < k
      ensures !InSegment(m, segs[i], w)
    {
      assert PagesApart(m, segs[i], segs[k]);
    }
  }

  lemma {:induction false} StepFails(m: Mode, mem: Frames, s: St, s': St, root: nat, segs: seq<LoadSegment>, k: nat,
      allowWx: bool, step: StepResult)
    requires Ram(m, mem) && Ram(m, s.mem) && root < m.PpnLimit() && k < |segs| && PlanOk(m, mem, root, segs)
    requires SameOutside(m, mem, s.mem, root, segs, k) && step != Done
    requires StepCause(m, s, s', root, step, Page(m, segs[k].vaddr, 0), segs[k].Pages(), LoadFlags(segs[k]))
    ensures LoadCause(m, mem, root, s'.gfa, segs, allowWx, LoadResultOf(step))
  {
    var seg := segs[k];
    if step == Failed(AlreadyMapped) {
      var w: Vpn :| |w| == m.Levels() && InSegment(m, seg, w) &&
        var h := WalkRoot(m, s.mem, root, w); h.Hit? && h.level == 0 && h.entry.flags != LoadFlags(seg) + {VALID};
      NextOutside(m, segs, k, w);
      assert WalkRoot(m, mem, root, w) == WalkRoot(m, s.mem, root, w);
      assert SegmentOccupied(m, mem, root, segs[k]);
    }
  }

  /** The loop of `load_elf_into`.  On success all segments are loaded and, unless it is allowed, none is
      both writable and executable; a failure has its cause; in every case the kernel's translations stay. */
  method LoadSegments(space: AddrSpace, segs: seq<LoadSegment>, allowWx: bool)
    returns (r: LoadResult, ghost ppns: seq<nat>)
    requires space.Valid() && PlanOk(space.walker.m, space.walker.ram.frames, space.walker.rpt, segs)
    modifies space`tree, space.walker.ram, space.gfa, space.data
    ensures space.Valid()
    ensures SameWalks(space.walker.m, old(space.walker.ram.frames), space.walker.ram.frames, space.kt[[]])
    ensures LoadCause(space.walker.m, old(space.walker.ram.frames), space.walker.rpt, space.gfa.Gfa(), segs, allowWx, r)
    ensures r.Loaded? ==> Progress(space.walker.m, old(space.walker.ram.frames), space.walker.State(space.gfa),
        space.tree, space.kt,
                                   space.walker.rpt, space.data.bytes, segs, |segs|, ppns)
    ensures r.Loaded? && !allowWx ==> forall i {:trigger segs[i]} :: 0 <= i < |segs| ==> !Wx(segs[i])
  {
    ghost var m, mem, root, kt := space.walker.m, space.walker.ram.frames, space.walker.rpt, space.kt;
    ppns := [];
    for k := 0 to |segs|
      invariant space.Valid() && SameWalks(m, mem, space.walker.ram.frames, kt[[]])
      invariant Progress(m, mem, space.walker.State(space.gfa), space.tree, kt, root, space.data.bytes, segs, k, ppns)
      invariant !allowWx ==> forall i {:trigger segs[i]} :: 0 <= i < k ==> !Wx(segs[i])
    {
      if !allowWx && Wx(segs[k]) {
        return WxRefused, ppns;
      }
      ghost var s, t, bytes, ppn := space.walker.State(space.gfa), space.tree, space.data.bytes, 0;
      NextClear(m, mem, s, root, segs, k);
      var step;
      step, ppn := space.LoadSegment(segs[k]);
      SameTwice(m, mem, s.mem, space.walker.ram.frames, kt[[]]);
      if step != Done {
        StepFails(m, mem, s, space.walker.State(space.gfa), root, segs, k, allowWx, step);
        return LoadResultOf(step), ppns;
      }
      ProgressStep(m, mem, s, t, space.walker.State(space.gfa), space.tree, kt, root, bytes, space.data.bytes, segs, k,
        ppns, ppn);
      ppns := ppns + [ppn];
    }
    r := Loaded;
  }

  /** The byte a load from the user address `x` would return. */
  function UserByte(m: Mode, mem: Frames, root: nat, bytes: Memory, x: nat): Option<Byte>
    requires Ram(m, mem) && root < m.PpnLimit()
  {
    match VirtToPhys(m, mem, root, x)
    case None => None
    case Some(pa) => if pa in bytes then Some(bytes[pa]) else None
  }

  /** A loaded segment reads back its file bytes, then zeros. */
  lemma {:induction false} ReadsBack(m: Mode, s: St, t: Tree, kt: Tree, root: nat, bytes: Memory, seg: LoadSegment,
      ppn: nat, o: nat)
    requires Ram(m, s.mem) && root < m.PpnLimit() && Backed(m, bytes) && SegmentOk(m, seg)
    requires LoadedAt(m, s, t, kt, root, bytes, seg, ppn) && o < seg.memSize
    ensures UserByte(m, s.mem, root, bytes, seg.vaddr + o) == Some(if o < |seg.fileData| then seg.fileData[o] else 0)
  {
    var pa := FirstByte(seg, ppn) + o;
    SegmentLinear(m, s.mem, root, seg, ppn);
    WithinFrames(m, seg, ppn);
    assert VirtToPhys(m, s.mem, root, seg.vaddr + o) == Some(pa);
    assert pa in bytes;
  }

  lemma {:induction false} SegmentLinear(m: Mode, mem: Frames, root: nat, seg: LoadSegment, ppn: nat)
    requires Ram(m, mem) && root < m.PpnLimit() && SegmentOk(m, seg) && MappedAt(m, mem, root, seg, ppn)
    requires ppn + seg.Pages() <= m.PpnLimit()
    ensures Linear(m, mem, root, seg.vaddr, FirstByte(seg, ppn), seg.memSize)
  {
    var start, o := SegmentStart(m, seg);
    PagesLinear(m, mem, root, start, ppn, seg.Pages(), UserFlags(seg.flags));
    LinearPart(m, mem, root, start, ppn * 4096, 4096 * seg.Pages(), o, seg.memSize);
  }

  lemma {:induction false} PagesLinear(m: Mode, mem: Frames, root: nat, start: nat, ppn: nat, n: nat, flags: Flags)
    requires Ram(m, mem) && root < m.PpnLimit() && start % 4096 == 0 && ppn + n <= m.PpnLimit()
    requires Page(m, start, 0) + n <= Span(m.Levels())
    requires RangeRedirected(m, mem, mem, root, Page(m, start, 0), n, 0, ppn, flags)
    ensures Linear(m, mem, root, start, ppn * 4096, 4096 * n)
  {
    PagesOk(m, start, ppn * 4096, n);
    MapsLinear(m, mem, mem, root, start, ppn * 4096, n, flags);
  }

  /** The pages that the rounded range of the segment meets are its pages. */
  ghost predicate OnPages(m: Mode, a: nat, len: nat, w: Vpn) {
    exists x: nat {:trigger VpnOf(m, x)} :: a - a % 4096 <= x < (a + len + 4095) / 4096 * 4096 && VpnOf(m, x) == w
  }

  lemma {:induction false} InSegmentIff(m: Mode, seg: LoadSegment, w: Vpn)
    requires SegmentOk(m, seg) && |w| == m.Levels()
    ensures InSegment(m, seg, w) <==> OnPages(m, seg.vaddr, seg.memSize, w)
  {
    var start, end := AlignDown(seg.vaddr), AlignUp(seg.vaddr + seg.memSize);
    SegmentBounds(m, seg);
    forall x: nat {:trigger VpnOf(m, x)} | start <= x < end
      ensures PageNo(VpnOf(m, x), 0) == Page(m, start, 0) + (x - start) / 4096
    {
      PageInHalf(m, start, end, x);
    }
    if InSegment(m, seg, w) {
      var x := start + 4096 * (PageNo(w, 0) - Page(m, start, 0));
      assert PageNo(VpnOf(m, x), 0) == PageNo(w, 0);
      PageNoSame(VpnOf(m, x), w, 0);
      assert VpnOf(m, x)[0..] == VpnOf(m, x) && w[0..] == w;
    }
  }

  lemma {:induction false} PageInHalf(m: Mode, start: nat, end: nat, x: nat)
    requires SameHalf(m, start, end) && start % 4096 == 0 && start <= x < end
    ensures PageNo(VpnOf(m, x), 0) == Page(m, start, 0) + (x - start) / 4096
  {
    SplitHalves(m, start);
    SplitHalves(m, x);
    PageNoOf(m, x, 0);
  }

  /** Every page of a loaded segment has exactly its permissions, USER and ACCESS. */
  lemma {:induction false} FinalPermissions(m: Mode, s: St, t: Tree, kt: Tree, root: nat, bytes: Memory,
      seg: LoadSegment, ppn: nat, w: Vpn)
    requires Ram(m, s.mem) && root < m.PpnLimit() && LoadedAt(m, s, t, kt, root, bytes, seg, ppn)
    requires |w| == m.Levels() && InSegment(m, seg, w)
    ensures var h := WalkRoot(m, s.mem, root, w);
      && h.Hit? && h.level == 0 && h.entry.flags == {VALID, USER, ACCESS} +
        (if R in seg.flags then {READ} else {}) + (if W in seg.flags then {WRITE} else {}) +
        (if X in seg.flags then {EXEC} else {})
  {
    assert Redirect(m, s.mem, s.mem, root, w, Page(m, seg.vaddr, 0), seg.Pages(), 0, ppn, UserFlags(seg.flags));
  }
}
