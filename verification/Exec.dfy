/** From an ELF file to a user address space that holds its image. */
module Exec {
  import opened Bytes
  import opened Paging
  import opened Mapping
  import opened Copy
  import opened Walker
  import opened Image
  import opened Loader
  import opened ElfLoad
  import opened Elf
  import opened Wrappers

  /** A fresh address space that starts as a copy of the kernel's mappings; null when frames run out. */
  method NewUserAddrSpace(m: Mode, ram: PhysMemory, gfa: BumpFrameAllocator, data: PhysBytes, kernel: nat,
      ghost kt: Tree)
    returns (space: AddrSpace?)
    requires StOk(m, St(ram.frames, gfa.Gfa())) && Wf(m, ram.frames, kt) && kt[[]] == kernel && Fresh(gfa.Gfa(), kt)
    requires Backed(m, data.bytes)
    modifies ram, gfa
    ensures SameWalksOf(m, old(ram.frames), ram.frames, kernel)
    ensures space == null ==> Exhausted(gfa.Gfa(), 1)
    ensures space != null ==>
      && fresh(space) && fresh(space.walker) && space.Valid() && space.kt == kt
      && space.walker.m == m && space.walker.ram == ram && space.gfa == gfa && space.data == data
      && Copied(m, old(ram.frames), ram.frames, kernel, space.walker.rpt)
  {
    ghost var mem0, g0 := ram.frames, gfa.Gfa();
    var walker := NewRoot(m, ram, gfa);
    if walker == null {
      return null;
    }
    ghost var rpt, mem1 := walker.rpt, ram.frames;
    RootApart(m, mem0, mem1, g0, kt, rpt);
    ghost var ut;
    var r;
    r, ut := walker.CopyInTree(kernel, gfa, kt);
    SameTwice(m, mem0, mem1, ram.frames, kernel);
    if r.Err? {
      return null;
    }
    CopiedFrom(m, mem0, mem1, ram.frames, kt, rpt);
    space := new AddrSpace(walker, gfa, data, ut, kt);
  }

  /** Both memories are usable and walks from `root` agree. */
  ghost predicate SameWalksOf(m: Mode, mem: Frames, mem': Frames, root: nat) {
    Ram(m, mem) && Ram(m, mem') && root < m.PpnLimit() && SameWalks(m, mem, mem', root)
  }

  /** Clearing a frame that was free leaves the kernel tree alone. */
  lemma {:induction false} RootApart(m: Mode, mem: Frames, mem': Frames, g: Gfa, kt: Tree, rpt: nat)
    requires Wf(m, mem, kt) && Fresh(g, kt) && Free(g, rpt) && Ram(m, mem') && mem' == mem[rpt := EmptyTable()]
    ensures Wf(m, mem', kt) && !Owned(kt, rpt) && SameWalks(m, mem, mem', kt[[]])
    ensures forall p :: p in kt ==> mem'[kt[p]] == mem[kt[p]]
  {
    Untouched(m, mem, mem', kt);
  }

  datatype ExecResult = Executable(entry: nat) | Unplanned(plan: PlanResult) | Unloaded(load: LoadResult)

  /** The program headers of an image that parses. */
  function HeadersOf(data: seq<Byte>): (hs: Headers) {
    if ParseHeader(data).Ok? then AllHeaders(data, ParseHeader(data).value) else []
  }

  /** The page is mapped for the user with exactly the permissions of the program header flags `f`. */
  predicate Permits(h: Hit, f: nat) {
    && h.Hit? && h.level == 0
    && h.entry.flags == {VALID, USER, ACCESS} + (if f / 4 % 2 == 1 then {READ} else {})
                        + (if f / 2 % 2 == 1 then {WRITE} else {}) + (if f % 2 == 1 then {EXEC} else {})
  }

  /** The program header is one to load. */
  predicate ToLoad(h: Result<Phdr>) { h.Ok? && h.value.kind == 1 }

  /** The page is one of those the memory range of the header is rounded out to. */
  ghost predicate PageOf(m: Mode, p: Phdr, w: Vpn) {
    NewAddr(m, p.vaddr).Some? && OnPages(m, NewAddr(m, p.vaddr).value, p.memsz, w)
  }

  /** The memory range of the program header reads back the bytes of the file it names, then zeros, and its
      pages have its permissions. */
  ghost predicate HeaderLoaded(m: Mode, mem: Frames, root: nat, bytes: Memory, data: seq<Byte>, p: Phdr)
    requires Ram(m, mem) && root < m.PpnLimit()
  {
    && p.offset + p.filesz <= |data| && NewAddr(m, p.vaddr).Some?
    && var a := NewAddr(m, p.vaddr).value;
      && (forall x: nat {:trigger UserByte(m, mem, root, bytes, x)} :: a <= x < a + p.memsz ==>
            UserByte(m, mem, root, bytes, x) == Some(if x - a < p.filesz then data[p.offset + (x - a)] else 0))
      && (forall w: Vpn {:trigger WalkRoot(m, mem, root, w)} :: |w| == m.Levels() && PageOf(m, p, w) ==>
            Permits(WalkRoot(m, mem, root, w), p.flags))
  }

  /** No header to load has the page. */
  ghost predicate PageOfNone(m: Mode, hs: Headers, w: Vpn) {
    forall k {:trigger hs[k]} :: 0 <= k < |hs| && ToLoad(hs[k]) ==> !PageOf(m, hs[k].value, w)
  }

  /** The image of a file in the address space at `root`: every header to load is loaded, with W^X unless
      that is waived, and addresses outside the image lead where they led in `mem0`. */
  ghost predicate ImageLoaded(m: Mode, mem0: Frames, mem: Frames, root: nat, bytes: Memory, data: seq<Byte>,
      allowWx: bool)
    requires Ram(m, mem0) && Ram(m, mem) && root < m.PpnLimit()
  {
    var hs := HeadersOf(data);
    && (forall k {:trigger hs[k]} :: 0 <= k < |hs| && ToLoad(hs[k]) ==>
          && HeaderLoaded(m, mem, root, bytes, data, hs[k].value)
          && (allowWx || !(hs[k].value.flags / 2 % 2 == 1 && hs[k].value.flags % 2 == 1)))
    && (forall w: Vpn {:trigger WalkRoot(m, mem, root, w)} :: |w| == m.Levels() && PageOfNone(m, hs, w) ==>
          WalkRoot(m, mem, root, w) == WalkRoot(m, mem0, root, w))
  }

  /** `load_elf_into` on a buffer of default slots.  On success the whole image is in place; otherwise the
      plan was refused or loading failed for its cause; in every case the kernel's translations stay. */
  method LoadElfInto(space: AddrSpace, data: seq<Byte>, allowWx: bool, maxSegments: nat, buf: array<LoadSegment>)
    returns (r: ExecResult)
    requires space.Valid() && (forall i :: 0 <= i < buf.Length ==> buf[i] == DEFAULT)
    requires PlanOf(space.walker.m, data, buf.Length, maxSegments).Plan? ==>
      PlanOk(space.walker.m, space.walker.ram.frames, space.walker.rpt, Segments(space.walker.m, data, HeadersOf(data)))
    modifies buf, space`tree, space.walker.ram, space.gfa, space.data
    ensures space.Valid()
    ensures SameWalksOf(space.walker.m, old(space.walker.ram.frames), space.walker.ram.frames, space.kt[[]])
    ensures r.Unplanned? <==> !PlanOf(space.walker.m, data, buf.Length, maxSegments).Plan?
    ensures r.Unplanned? ==> r.plan == PlanOf(space.walker.m, data, buf.Length, maxSegments)
    ensures r.Unloaded? ==> !r.load.Loaded?
    ensures r.Unloaded? ==>
              LoadCause(space.walker.m, old(space.walker.ram.frames), space.walker.rpt, space.gfa.Gfa(),
                Segments(space.walker.m, data, HeadersOf(data)), allowWx, r.load)
    ensures r.Executable? ==> |data| >= 64 && NewAddr(space.walker.m, Le(data[0x18..0x20])) == Some(r.entry)
    ensures r.Executable? ==> PlanOf(space.walker.m, data, buf.Length, maxSegments) == Plan(r.entry, |HeadersOf(data)|)
    ensures r.Executable? ==>
              ImageLoaded(space.walker.m, old(space.walker.ram.frames), space.walker.ram.frames, space.walker.rpt,
                space.data.bytes, data, allowWx)
  {
    var plan := BuildLoadPlan(space.walker.m, data, maxSegments, buf);
    if !plan.Plan? {
      return Unplanned(plan);
    }
    ghost var m, mem, hs, slots := space.walker.m, space.walker.ram.frames, HeadersOf(data), buf.Length;
    var segs := buf[..plan.count];
    assert segs == Segments(m, data, hs);
    var load, ppns := LoadSegments(space, segs, allowWx);
    if !load.Loaded? {
      return Unloaded(load);
    }
    ImageIsLoaded(m, mem, space.walker.State(space.gfa), space.tree, space.kt, space.walker.rpt, space.data.bytes,
      data, slots, maxSegments, segs, ppns, allowWx);
    r := Executable(plan.entry);
  }

  /** A loaded segment, byte by byte ... */
  lemma {:induction false} SegmentReadsBack(m: Mode, s: St, t: Tree, kt: Tree, root: nat, bytes: Memory,
      data: seq<Byte>, p: Phdr, a: nat, seg: LoadSegment, ppn: nat, x: nat)
    requires Ram(m, s.mem) && root < m.PpnLimit() && Backed(m, bytes) && p.offset + p.filesz <= |data|
    requires seg.vaddr == a && seg.memSize == p.memsz && seg.fileData == data[p.offset..p.offset + p.filesz]
    requires SegmentOk(m, seg) && LoadedAt(m, s, t, kt, root, bytes, seg, ppn) && a <= x < a + p.memsz
    ensures UserByte(m, s.mem, root, bytes, x) == Some(if x - a < p.filesz then data[p.offset + (x - a)] else 0)
  {
    ReadsBack(m, s, t, kt, root, bytes, seg, ppn, x - a);
  }

  /** ... and page by page. */
  lemma {:induction false} SegmentPermits(m: Mode, s: St, t: Tree, kt: Tree, root: nat, bytes: Memory,
      seg: LoadSegment, ppn: nat, w: Vpn)
    requires Ram(m, s.mem) && root < m.PpnLimit() && LoadedAt(m, s, t, kt, root, bytes, seg, ppn)
    requires |w| == m.Levels() && InSegment(m, seg, w)
    ensures forall p: Phdr :: SegmentFlags(p) == seg.flags ==> Permits(WalkRoot(m, s.mem, root, w), p.flags)
  {
    FinalPermissions(m, s, t, kt, root, bytes, seg, ppn, w);
  }

  lemma {:induction false} SegmentIsLoaded(m: Mode, s: St, t: Tree, kt: Tree, root: nat, bytes: Memory,
      data: seq<Byte>, p: Phdr, seg: LoadSegment, ppn: nat)
    requires Ram(m, s.mem) && root < m.PpnLimit() && Backed(m, bytes)
    requires p.offset + p.filesz <= |data| && NewAddr(m, p.vaddr).Some? && seg == SegmentOf(m, data, p)
    requires SegmentOk(m, seg) && LoadedAt(m, s, t, kt, root, bytes, seg, ppn)
    ensures HeaderLoaded(m, s.mem, root, bytes, data, p)
  {
    var a := NewAddr(m, p.vaddr).value;
    forall x: nat {:trigger UserByte(m, s.mem, root, bytes, x)} | a <= x < a + p.memsz
      ensures UserByte(m, s.mem, root, bytes, x) == Some(if x - a < p.filesz then data[p.offset + (x - a)] else 0)
    {
      SegmentReadsBack(m, s, t, kt, root, bytes, data, p, a, seg, ppn, x);
    }
    forall w: Vpn {:trigger WalkRoot(m, s.mem, root, w)} | |w| == m.Levels() && PageOf(m, p, w)
      ensures Permits(WalkRoot(m, s.mem, root, w), p.flags)
    {
      InSegmentIff(m, seg, w);
      SegmentPermits(m, s, t, kt, root, bytes, seg, ppn, w);
    }
  }

  /** After a load of the segments `segs` succeeded, segment `k` of header `p` is in place. */
  lemma {:induction false} ImageReadsBack(m: Mode, mem: Frames, s: St, t: Tree, kt: Tree, root: nat, bytes: Memory,
      data: seq<Byte>, segs: seq<LoadSegment>, ppns: seq<nat>, k: nat, p: Phdr)
    requires Ram(m, mem) && root < m.PpnLimit() && Backed(m, bytes) && PlanOk(m, mem, root, segs)
    requires Progress(m, mem, s, t, kt, root, bytes, segs, |segs|, ppns) && k < |segs|
    requires p.offset + p.filesz <= |data| && NewAddr(m, p.vaddr).Some? && segs[k] == SegmentOf(m, data, p)
    ensures HeaderLoaded(m, s.mem, root, bytes, data, p)
  {
    assert LoadedAt(m, s, t, kt, root, bytes, segs[k], ppns[k]);
    SegmentIsLoaded(m, s, t, kt, root, bytes, data, p, segs[k], ppns[k]);
  }

  /** A plan means that a loadable header names bytes of the file and fills its slot. */
  lemma {:induction false} PlannedSlot(m: Mode, data: seq<Byte>, hs: Headers, entry: nat, slots: nat, maxSegments: nat,
      k: nat, p: Phdr)
    requires PlanFrom(m, data, hs, entry, 0, slots, maxSegments).Plan? && k < |hs| && hs[k] == Elf.Ok(p)
    requires p.kind == PT_LOAD
    ensures p.offset + p.filesz <= |data| && NewAddr(m, p.vaddr).Some?
    ensures Segments(m, data, hs)[k] == SegmentOf(m, data, p)
  {
    PlanMeans(m, data, hs, entry, 0, slots, maxSegments, k);
  }

  lemma {:induction false} HeaderInPlace(m: Mode, mem: Frames, s: St, t: Tree, kt: Tree, root: nat, bytes: Memory,
      data: seq<Byte>,
      hs: Headers, entry: nat, slots: nat, maxSegments: nat, segs: seq<LoadSegment>, ppns: seq<nat>, allowWx: bool,
        k: nat)
    requires Ram(m, mem) && root < m.PpnLimit() && Backed(m, bytes) && segs == Segments(m, data, hs)
    requires PlanFrom(m, data, hs, entry, 0, slots, maxSegments).Plan? && PlanOk(m, mem, root, segs)
    requires Progress(m, mem, s, t, kt, root, bytes, segs, |segs|, ppns)
    requires allowWx || forall i {:trigger segs[i]} :: 0 <= i < |segs| ==> !Wx(segs[i])
    requires k < |hs| && Loadable(hs[k])
    ensures HeaderLoaded(m, s.mem, root, bytes, data, hs[k].value)
    ensures allowWx || !(hs[k].value.flags / 2 % 2 == 1 && hs[k].value.flags % 2 == 1)
  {
    var p := hs[k].value;
    PlannedSlot(m, data, hs, entry, slots, maxSegments, k, p);
    ImageReadsBack(m, mem, s, t, kt, root, bytes, data, segs, ppns, k, p);
    assert allowWx || !Wx(segs[k]);
  }

  lemma {:induction false} ImageIsLoaded(m: Mode, mem: Frames, s: St, t: Tree, kt: Tree, root: nat, bytes: Memory,
      data: seq<Byte>, slots: nat, maxSegments: nat, segs: seq<LoadSegment>, ppns: seq<nat>, allowWx: bool)
    requires Ram(m, mem) && root < m.PpnLimit() && Backed(m, bytes) && PlanOf(m, data, slots, maxSegments).Plan?
    requires segs == Segments(m, data, HeadersOf(data)) && PlanOk(m, mem, root, segs)
    requires Progress(m, mem, s, t, kt, root, bytes, segs, |segs|, ppns)
    requires allowWx || forall i {:trigger segs[i]} :: 0 <= i < |segs| ==> !Wx(segs[i])
    ensures ImageLoaded(m, mem, s.mem, root, bytes, data, allowWx)
  {
    var hs, entry := HeadersOf(data), ParseHeader(data).value.entry;
    forall k {:trigger hs[k]} | 0 <= k < |hs| && ToLoad(hs[k])
      ensures HeaderLoaded(m, s.mem, root, bytes, data, hs[k].value)
      ensures allowWx || !(hs[k].value.flags / 2 % 2 == 1 && hs[k].value.flags % 2 == 1)
    {
      HeaderInPlace(m, mem, s, t, kt, root, bytes, data, hs, entry, slots, maxSegments, segs, ppns, allowWx, k);
    }
    forall w: Vpn {:trigger WalkRoot(m, s.mem, root, w)} | |w| == m.Levels() && PageOfNone(m, hs, w)
      ensures WalkRoot(m, s.mem, root, w) == WalkRoot(m, mem, root, w)
    {
      NoneOutside(m, mem, root, data, hs, entry, slots, maxSegments, segs, w);
    }
  }

  lemma {:induction false} NoneOutside(m: Mode, mem: Frames, root: nat, data: seq<Byte>, hs: Headers, entry: nat,
      slots: nat, maxSegments: nat, segs: seq<LoadSegment>, w: Vpn)
    requires Ram(m, mem) && root < m.PpnLimit() && segs == Segments(m, data, hs) && PlanOk(m, mem, root, segs)
    requires PlanFrom(m, data, hs, entry, 0, slots, maxSegments).Plan? && |w| == m.Levels() && PageOfNone(m, hs, w)
    ensures Outside(m, segs, |segs|, w)
  {
    forall i {:trigger segs[i]} | 0 <= i < |segs|
      ensures !InSegment(m, segs[i], w)
    {
      if Loadable(hs[i]) {
        PlannedSlot(m, data, hs, entry, slots, maxSegments, i, hs[i].value);
        InSegmentIff(m, segs[i], w);
      } else {
        OthersAreNothing(m, data, hs[i], segs[i], w);
      }
    }
  }

  lemma {:induction false} PagePermits(m: Mode, mem: Frames, root: nat, bytes: Memory, data: seq<Byte>, p: Phdr, w: Vpn)
    requires Ram(m, mem) && root < m.PpnLimit() && HeaderLoaded(m, mem, root, bytes, data, p)
    requires |w| == m.Levels() && PageOf(m, p, w)
    ensures Permits(WalkRoot(m, mem, root, w), p.flags)
  {
  }

  /** With W^X enforced no page of the image is both writable and executable. */
  lemma {:induction false} NoPageWx(m: Mode, mem0: Frames, mem: Frames, root: nat, bytes: Memory, data: seq<Byte>,
      k: nat, w: Vpn)
    requires Ram(m, mem0) && Ram(m, mem) && root < m.PpnLimit() && ImageLoaded(m, mem0, mem, root, bytes, data, false)
    requires k < |HeadersOf(data)| && ToLoad(HeadersOf(data)[k]) && |w| == m.Levels()
    requires PageOf(m, HeadersOf(data)[k].value, w)
    ensures var h := WalkRoot(m, mem, root, w); h.Hit? && !(WRITE in h.entry.flags && EXEC in h.entry.flags)
  {
    var hs, p := HeadersOf(data), HeadersOf(data)[k].value;
    assert HeaderLoaded(m, mem, root, bytes, data, hs[k].value);
    PagePermits(m, mem, root, bytes, data, p, w);
  }

  /** The slot of a header that is not loadable takes part in nothing: no address belongs to it. */
  lemma {:induction false} OthersAreNothing(m: Mode, data: seq<Byte>, h: Result<Phdr>, slot: LoadSegment, w: Vpn)
    requires !Loadable(h) && slot == Slot(m, data, h, DEFAULT)
    ensures !InSegment(m, slot, w)
  {
    DefaultIsNothing();
  }
}
