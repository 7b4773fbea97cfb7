/** The page-table walker and the frame allocator it draws tables from, as objects. */
module Walker {
  import opened Arith
  import opened Paging
  import opened Addr
  import opened Mapping
  import opened Ranges
  import opened Update
  import opened Copy
  import opened Wrappers

  datatype PageSize = Kb | Mb | Gb | Tb {
    function Level(): nat { match this case Kb => 0 case Mb => 1 case Gb => 2 case Tb => 3 }
  }

  function SizeOfLevel(l: nat): (z: PageSize)
    requires l < 4
    ensures z.Level() == l
  {
    match l case 0 => Kb case 1 => Mb case 2 => Gb case 3 => Tb
  }

  /** The addresses have the same page-number digits. */
  predicate SameVpn(m: Mode, a: nat, b: nat) { VpnOf(m, a) == VpnOf(m, b) }

  /** Physical memory, seen as page tables. */
  class PhysMemory {
    var frames: Frames

    constructor (frames: Frames)
      ensures this.frames == frames
    {
      this.frames := frames;
    }
  }

  /** `BumpFrameAllocator` */
  class BumpFrameAllocator {
    const start: nat
    const end: nat
    var ptr: nat
    var granted: nat

    ghost function Gfa(): Gfa
      reads this
    {
      Mapping.Gfa(ptr, end)
    }

    constructor (start: nat, end: nat)
      requires start <= end
      ensures Gfa() == Mapping.Gfa(start, end) && this.start == start && granted == 0
    {
      this.start, this.end, ptr, granted := start, end, start, 0;
    }

    /** Returns the address of `count` contiguous frames: the next ones, unless fewer are left. */
    method Alloc(count: nat) returns (addr: Option<nat>)
      modifies this
      ensures count >= 1 && old(ptr) <= end <= 0x100_0000_0000_0000 ==>
                (addr == None <==> end - old(ptr) < 4096 * count)
      ensures addr.Some? ==> addr.value == old(ptr) && ptr == old(ptr) + 4096 * count && granted == old(granted) + count
      ensures addr.None? ==> ptr == old(ptr) && granted == old(granted)
      ensures match AllocFrames(old(Gfa()), count)
              case None => addr == None && Gfa() == old(Gfa()) && granted == old(granted)
              case Some((a, g)) => addr == Some(a) && Gfa() == g && granted == old(granted) + count
    {
      var next := ptr + count * 4096;
      if next >= WORD || next > end || ptr >= 0x100_0000_0000_0000 {
        return None;
      }
      addr := Some(ptr);
      ptr := next;
      granted := granted + count;
    }
  }

  /** `PageTableWalker` */
  class PageTableWalker {
    const m: Mode
    const ram: PhysMemory
    const rpt: nat

    constructor (m: Mode, ram: PhysMemory, rpt: nat)
      ensures this.m == m && this.ram == ram && this.rpt == rpt
    {
      this.m, this.ram, this.rpt := m, ram, rpt;
    }

    ghost function State(gfa: BumpFrameAllocator): St
      reads ram, gfa
    {
      St(ram.frames, gfa.Gfa())
    }

    /** Memory and allocator are usable, whatever the tables hold. */
    ghost predicate Usable(gfa: BumpFrameAllocator)
      reads ram, gfa
    {
      StOk(m, State(gfa)) && rpt < m.PpnLimit()
    }

    /** The tables of this walker form the tree `t`, away from the free frames. */
    ghost predicate Valid(gfa: BumpFrameAllocator, t: Tree)
      reads ram, gfa
    {
      Space(m, State(gfa), t) && t[[]] == rpt
    }

    /** One turn of the descent loop of `Map`. */
    method Follow(table: nat, i: Index, gfa: BumpFrameAllocator) returns (next: Option<nat>)
      requires Usable(gfa) && table < m.PpnLimit()
      modifies ram, gfa
      ensures Usable(gfa)
      ensures (State(gfa), next) == NextTable(m, old(State(gfa)), table, i)
    {
      var pte := ram.frames[table][i];
      if pte.IsValid() {
        return Some(pte.ppn);
      }
      var frame := gfa.Alloc(1);
      if frame.None? {
        return None;
      }
      var g := frame.value / 4096;
      ram.frames := Put(ram.frames, table, i, EMPTY.(flags := {VALID}).SetPpn(m, g));
      ram.frames := ram.frames[g := EmptyTable()];
      return Some(g);
    }

    method Map(vaddr: nat, paddr: nat, size: PageSize, flags: Flags, gfa: BumpFrameAllocator) returns (r: MapResult)
      requires Usable(gfa) && size.Level() < m.Levels()
      modifies ram, gfa
      ensures Usable(gfa)
      ensures (State(gfa), r) == MapPage(m, old(State(gfa)), rpt, VpnOf(m, vaddr), paddr / 4096, size.Level(), flags)
    {
      var v, target := VpnOf(m, vaddr), size.Level();
      var l := m.Levels() - 1;
      var table: nat := rpt;
      while l > target
        invariant target <= l < m.Levels() && table < m.PpnLimit() && Usable(gfa)
        invariant Descend(m, State(gfa), table, l, target, v)
            == old(Descend(m, State(gfa), rpt, m.Levels() - 1, target, v))
      {
        var next := Follow(table, v[l], gfa);
        if next.None? {
          return Err(AllocationFailed);
        }
        table, l := next.value, l - 1;
      }
      var pte := ram.frames[table][v[target]];
      if pte.IsValid() && pte.flags != flags + {VALID} {
        return Err(AlreadyMapped);
      }
      ram.frames := Put(ram.frames, table, v[target], pte.WriteFlags(flags + {VALID}).SetPpn(m, paddr / 4096));
      return Ok;
    }

    /** `Map` on a well-formed tree `t` with no larger leaf above the page. */
    method MapInTree(vaddr: nat, paddr: nat, size: PageSize, flags: Flags, gfa: BumpFrameAllocator, ghost t: Tree)
      returns (r: MapResult, ghost t': Tree)
      requires Valid(gfa, t) && size.Level() < m.Levels() && Maps(flags)
      requires NoLargerLeaf(m, ram.frames, rpt, VpnOf(m, vaddr), size.Level())
      requires MaskPpn(m, paddr / 4096) % Span(size.Level()) == 0
      modifies ram, gfa
      ensures MapEffect(m, old(State(gfa)), t, State(gfa), t', r, VpnOf(m, vaddr), paddr / 4096, size.Level(), flags)
    {
      ghost var s', r', t1 := MapRefines(m, State(gfa), t, VpnOf(m, vaddr), paddr / 4096, size.Level(), flags);
      r := Map(vaddr, paddr, size, flags, gfa);
      t' := t1;
    }

    /** The addresses of page `i` of a range, computed without panicking. */
    method NthAddresses(vaddr: nat, start: nat, i: nat, ghost n: nat, l: nat) returns (va: nat, pa: nat)
      requires l < m.Levels() && i < n && Canonical(m, vaddr) && Page(m, vaddr, l) + n <= Span(m.Levels() - l)
      ensures SameVpn(m, va, vaddr + Times(i, Size(l))) && pa == start + Times(i, Size(l))
    {
      VirtAddOk(m, vaddr, i, l);
      var offset := Times(i, Size(l));
      va, pa := VirtAdd(m, vaddr, offset), start + offset;
    }

    /** One turn of the loop of `MapRange`, with what the loop comes to from here on. */
    method MapNth(va: nat, pa: nat, size: PageSize, flags: Flags, gfa: BumpFrameAllocator, ghost vaddr: nat,
        ghost start: nat, ghost i: nat, ghost n: nat, ghost l: nat)
      returns (r: MapResult)
      requires Usable(gfa) && size.Level() == l < m.Levels() && i < n
      requires SameVpn(m, va, vaddr + Times(i, Size(l))) && pa == start + Times(i, Size(l))
      modifies ram, gfa
      ensures Usable(gfa)
      ensures old(MapPages(m, State(gfa), rpt, vaddr, start, i, n, l, flags))
           == if r.Err? then (State(gfa), r, i) else MapPages(m, State(gfa), rpt, vaddr, start, i + 1, n, l, flags)
    {
      ghost var s := State(gfa);
      r := Map(va, pa, size, flags, gfa);
      MapPagesTurn(m, s, rpt, vaddr, start, i, n, l, flags, VpnOf(m, va), pa / 4096, State(gfa), r);
    }

    /** Maps the physical range `[start, end)` from `vaddr` on.  `k` counts the pages mapped. */
    method MapRange(vaddr: nat, start: nat, end: nat, size: PageSize, flags: Flags, gfa: BumpFrameAllocator)
      returns (r: MapResult, ghost k: nat)
      requires Usable(gfa) && size.Level() < m.Levels() && Canonical(m, vaddr) && start <= end
      requires Page(m, vaddr, size.Level()) + PagesIn(end - start, size.Level()) <= Span(m.Levels() - size.Level())
      modifies ram, gfa
      ensures Usable(gfa)
      ensures (State(gfa), r, k)
           == MapPages(m, old(State(gfa)), rpt, vaddr, start, 0, PagesIn(end - start, size.Level()), size.Level(),
             flags)
    {
      r, k := MapAll(vaddr, start, PagesIn(end - start, size.Level()), size, flags, gfa, size.Level());
    }

    /** Its loop, over `n` pages of level `l`. */
    method MapAll(vaddr: nat, start: nat, n: nat, size: PageSize, flags: Flags, gfa: BumpFrameAllocator, l: nat)
      returns (r: MapResult, ghost k: nat)
      requires Usable(gfa) && size.Level() == l < m.Levels() && Canonical(m, vaddr)
      requires Page(m, vaddr, l) + n <= Span(m.Levels() - l)
      modifies ram, gfa
      ensures Usable(gfa) && (State(gfa), r, k) == MapPages(m, old(State(gfa)), rpt, vaddr, start, 0, n, l, flags)
    {
      ghost var all := MapPages(m, State(gfa), rpt, vaddr, start, 0, n, l, flags);
      for i := 0 to n
        invariant Usable(gfa) && MapPages(m, State(gfa), rpt, vaddr, start, i, n, l, flags) == all
      {
        var va, pa := NthAddresses(vaddr, start, i, n, l);
        r := MapNth(va, pa, size, flags, gfa, vaddr, start, i, n, l);
        if r.Err? {
          return r, i;
        }
      }
      return Ok, n;
    }

    /** `MapRange` on a well-formed tree `t` with no larger leaf above the pages. */
    method MapRangeInTree(vaddr: nat, start: nat, end: nat, size: PageSize, flags: Flags, gfa: BumpFrameAllocator,
        ghost t: Tree)
      returns (r: MapResult, ghost t': Tree, ghost k: nat)
      requires Valid(gfa, t) && size.Level() < m.Levels() && Maps(flags)
      requires Canonical(m, vaddr) && start <= end
      requires RangeOk(m, vaddr, start, PagesIn(end - start, size.Level()), size.Level())
      requires RangeClear(m, ram.frames, rpt, Page(m, vaddr, size.Level()), PagesIn(end - start, size.Level()),
          size.Level())
      modifies ram, gfa
      ensures RangeEffect(m, old(State(gfa)), t, State(gfa), t', r, Page(m, vaddr, size.Level()),
          PagesIn(end - start, size.Level()), k,
                          size.Level(), start / 4096, flags)
    {
      ghost var l, n, s := size.Level(), PagesIn(end - start, size.Level()), State(gfa);
      ghost var s', r', k' := MapPagesRefines(m, s, t, vaddr, start, n, l, flags);
      r, k := MapRange(vaddr, start, end, size, flags, gfa);
      t' :| RangeEffect(m, s, t, s', t', r', Page(m, vaddr, l), n, k', l, start / 4096, flags);
    }

    /** Page `i` of a range as a virtual and as a physical address, without panicking. */
    method NthIdentity(base: nat, i: nat, ghost n: nat, ghost l: nat) returns (va: nat, addr: nat)
      requires i < n && base + 4096 * n <= VaLimit(m) && l == 0
      ensures SameVpn(m, va, base + Times(i, Size(l))) && addr == base + Times(i, Size(l))
    {
      TimesIs(i, Size(l));
      addr := base + i * 4096;
      TryNewCanonical(m, addr);
      TryNewVpn(m, addr);
      va := TryNew(m, addr).value;
    }

    /** Maps the pages of `[start, end)`, rounded out, each to itself.  `k` counts the pages mapped. */
    method IdentityMapRange(start: nat, end: nat, flags: Flags, gfa: BumpFrameAllocator)
      returns (r: MapResult, ghost k: nat)
      requires Usable(gfa) && start <= end && AlignUp(end) <= VaLimit(m)
      modifies ram, gfa
      ensures Usable(gfa)
      ensures (State(gfa), r, k)
           == MapPages(m, old(State(gfa)), rpt, AlignDown(start), AlignDown(start), 0, PagesMet(start, end - start), 0,
             flags)
    {
      var base := AlignDown(start);
      var n := (AlignUp(end) - base) / 4096;
      RoundsTo(start, end, base, n);
      r, k := IdentityMapAll(base, n, flags, gfa, 0);
    }

    /** Its loop, over `n` pages of level `l` from `base` on. */
    method IdentityMapAll(base: nat, n: nat, flags: Flags, gfa: BumpFrameAllocator, ghost l: nat)
      returns (r: MapResult, ghost k: nat)
      requires Usable(gfa) && base + 4096 * n <= VaLimit(m) && l == 0
      modifies ram, gfa
      ensures Usable(gfa) && (State(gfa), r, k) == MapPages(m, old(State(gfa)), rpt, base, base, 0, n, l, flags)
    {
      ghost var all := MapPages(m, State(gfa), rpt, base, base, 0, n, l, flags);
      for i := 0 to n
        invariant Usable(gfa) && MapPages(m, State(gfa), rpt, base, base, i, n, l, flags) == all
      {
        var va, addr := NthIdentity(base, i, n, l);
        r := MapNth(va, addr, Kb, flags, gfa, base, base, i, n, l);
        if r.Err? {
          return r, i;
        }
      }
      return Ok, n;
    }

    /** `IdentityMapRange` on a well-formed tree `t` with no larger leaf above the pages. */
    method IdentityMapInTree(start: nat, end: nat, flags: Flags, gfa: BumpFrameAllocator, ghost t: Tree)
      returns (r: MapResult, ghost t': Tree, ghost k: nat)
      requires Valid(gfa, t) && Maps(flags) && start <= end
      requires AlignUp(end) <= VaLimit(m) && AlignUp(end) <= m.PpnLimit() * 4096
      requires RangeClear(m, ram.frames, rpt, Page(m, AlignDown(start), 0), PagesMet(start, end - start), 0)
      modifies ram, gfa
      ensures RangeEffect(m, old(State(gfa)), t, State(gfa), t', r, Page(m, AlignDown(start), 0),
          PagesMet(start, end - start), k, 0,
                          AlignDown(start) / 4096, flags)
      ensures r.Ok? ==> IdentityWithin(m, old(ram.frames), ram.frames, rpt, AlignDown(start), AlignUp(end))
    {
      ghost var base, n, s := AlignDown(start), PagesMet(start, end - start), State(gfa);
      Rounding(start, end - start, n);
      IdentityPages(m, base, AlignUp(end), n);
      ghost var s', r', k' := MapPagesRefines(m, s, t, base, base, n, 0, flags);
      r, k := IdentityMapRange(start, end, flags, gfa);
      t' :| RangeEffect(m, s, t, s', t', r', Page(m, base, 0), n, k', 0, base / 4096, flags);
      if r.Ok? {
        IdentityMaps(m, s.mem, ram.frames, rpt, base, AlignUp(end), n, flags);
      }
    }

    /** The table frame, level and value of the entry that `vaddr` leads to. */
    method GetPte(vaddr: nat) returns (h: Hit)
      requires Ram(m, ram.frames) && rpt < m.PpnLimit()
      ensures h == FindPte(m, ram.frames, rpt, m.Levels() - 1, VpnOf(m, vaddr))
    {
      var v := VpnOf(m, vaddr);
      var l := m.Levels() - 1;
      var table: nat := rpt;
      while l > 0
        invariant 0 <= l < m.Levels() && table < m.PpnLimit()
        invariant FindPte(m, ram.frames, table, l, v) == FindPte(m, ram.frames, rpt, m.Levels() - 1, v)
      {
        var pte := ram.frames[table][v[l]];
        if !pte.IsValid() {
          return Miss;
        }
        if pte.IsLeaf() {
          return Hit(table, l, pte);
        }
        table, l := pte.ppn, l - 1;
      }
      var pte := ram.frames[table][v[0]];
      return if pte.IsValid() then Hit(table, 0, pte) else Miss;
    }

    /** The address of page `i` of a run of 4 KiB pages, computed without panicking. */
    method NthPageAddr(start: nat, i: nat, ghost n: nat) returns (va: nat)
      requires Canonical(m, start) && i < n && Page(m, start, 0) + n <= Span(m.Levels())
      ensures SameVpn(m, va, start + Times(i, Size(0)))
    {
      VirtAddOk(m, start, i, 0);
      TimesIs(i, Size(0));
      va := VirtAdd(m, start, i * 4096);
    }

    /** Rewrites the flags of the leaf around `addr`, page `i` of a loop over `n` pages from `start` on. */
    method UpdateAt(addr: nat, flags: Flags, ghost start: nat, ghost i: nat, ghost n: nat) returns (r: MapResult)
      requires Ram(m, ram.frames) && rpt < m.PpnLimit() && i < n && SameVpn(m, addr, start + Times(i, Size(0)))
      modifies ram
      ensures Ram(m, ram.frames)
      ensures old(UpdatePages(m, ram.frames, rpt, start, i, n, flags))
           == if r.Err? then (ram.frames, r, i) else UpdatePages(m, ram.frames, rpt, start, i + 1, n, flags)
    {
      var h := GetPte(addr);
      if h.Miss? {
        return Err(CorruptedPageTable);
      }
      if !h.entry.IsValid() {
        return Err(CorruptedPageTable);
      }
      ram.frames := Put(ram.frames, h.frame, VpnOf(m, addr)[h.level], h.entry.WriteFlags(flags));
      r := Ok;
    }

    /** Rewrites the flags of every page that meets `[vaddr, vaddr + len)`.  `k` counts the pages done. */
    method UpdateMapping(vaddr: nat, len: nat, flags: Flags) returns (r: MapResult, ghost k: nat)
      requires Ram(m, ram.frames) && rpt < m.PpnLimit() && SameHalf(m, vaddr, AlignUp(vaddr + len))
      modifies ram
      ensures Ram(m, ram.frames)
      ensures (ram.frames, r, k) == UpdatePages(m, old(ram.frames), rpt, AlignDown(vaddr), 0, PagesMet(vaddr, len),
          flags)
    {
      PagesMetOk(m, vaddr, len);
      r, k := UpdateAll(AlignDown(vaddr), (AlignUp(vaddr + len) - AlignDown(vaddr)) / 4096, flags);
    }

    /** Its loop, over `n` pages from `start` on. */
    method UpdateAll(start: nat, n: nat, flags: Flags) returns (r: MapResult, ghost k: nat)
      requires Ram(m, ram.frames) && rpt < m.PpnLimit() && Canonical(m, start)
      requires Page(m, start, 0) + n <= Span(m.Levels())
      modifies ram
      ensures Ram(m, ram.frames) && (ram.frames, r, k) == UpdatePages(m, old(ram.frames), rpt, start, 0, n, flags)
    {
      ghost var all := UpdatePages(m, ram.frames, rpt, start, 0, n, flags);
      for i := 0 to n
        invariant Ram(m, ram.frames) && UpdatePages(m, ram.frames, rpt, start, i, n, flags) == all
      {
        var addr := NthPageAddr(start, i, n);
        r := UpdateAt(addr, flags, start, i, n);
        if r.Err? {
          return r, i;
        }
      }
      return Ok, n;
    }

    /** `UpdateMapping` with some permission on a well-formed tree `t`. */
    method UpdateInTree(vaddr: nat, len: nat, flags: Flags, ghost t: Tree) returns (r: MapResult, ghost k: nat)
      requires Wf(m, ram.frames, t) && t[[]] == rpt && Maps(flags) && SameHalf(m, vaddr, AlignUp(vaddr + len))
      modifies ram
      ensures UpdateOutcome(m, old(ram.frames), ram.frames, t, Page(m, vaddr, 0), PagesMet(vaddr, len), k, r, flags)
    {
      PagesMetOk(m, vaddr, len);
      ghost var mem', r', k' := UpdatePagesRefines(m, ram.frames, t, AlignDown(vaddr), PagesMet(vaddr, len), flags);
      r, k := UpdateMapping(vaddr, len, flags);
    }

    /** The physical address `vaddr` translates to, or None. */
    method Translate(vaddr: nat) returns (pa: Option<nat>)
      requires Ram(m, ram.frames) && rpt < m.PpnLimit()
      ensures pa == VirtToPhys(m, ram.frames, rpt, vaddr)
    {
      var v := VpnOf(m, vaddr);
      var l := m.Levels();
      var table: nat := rpt;
      while l > 0
        invariant 0 <= l <= m.Levels() && table < m.PpnLimit()
        invariant (if l == 0 then Miss else Walk(m, ram.frames, table, l - 1, v)) == WalkRoot(m, ram.frames, rpt, v)
      {
        l := l - 1;
        var pte := ram.frames[table][v[l]];
        if !pte.IsValid() {
          break;
        }
        if pte.IsLeaf() {
          var ppn := pte.ppn;
          for j := 0 to l
            invariant ppn == OrLow(pte.ppn, v, j)
          {
            ppn := BitOr(ppn, Shl(v[j], 9 * j));
          }
          return Some(ppn * 4096 + vaddr % 4096);
        }
        table := pte.ppn;
      }
      return None;
    }

    /** The address of entry `i` of the table of level `level` numbered `b`, whose first address is `base`. */
    method EntryAddr(base: nat, i: Index, level: nat, ghost b: nat, ghost no: nat) returns (va: nat)
      requires level < m.Levels() && b < Span(m.Levels() - 1 - level) && AtPage(m, base, b, level + 1)
      requires no == 512 * b + i
      ensures no < Span(m.Levels() - level) && AtPage(m, va, no, level) && SameVpn(m, va, Times(no, Size(level)))
    {
      EntryAddrOk(m, base, i, level, b, no, Times(i, Size(level)));
      va := VirtAdd(m, base, Times(i, Size(level)));
    }

    /** Copies one kernel entry, number `no` of its level, and all that lies below it. */
    method CopyAt(entry: Entry, vaddr: nat, level: nat, gfa: BumpFrameAllocator, ghost no: nat) returns (r: MapResult)
      requires Usable(gfa) && entry.ppn < m.PpnLimit() && level < m.Levels()
      requires no < Span(m.Levels() - level) && AtPage(m, vaddr, no, level)
      requires SameVpn(m, vaddr, Times(no, Size(level)))
      modifies ram, gfa
      ensures Usable(gfa)
      ensures (State(gfa), r) == old(CopyEntry(m, State(gfa), rpt, entry, no, level))
      decreases level, 0
    {
      if !entry.IsValid() || USER in entry.flags {
        return Ok;
      }
      if entry.IsLeaf() {
        r := Map(vaddr, entry.ppn * 4096, SizeOfLevel(level), entry.flags, gfa);
      } else if level == 0 {
        r := Err(CorruptedPageTable);
      } else {
        r := CopyTable(entry.ppn, vaddr, level - 1, gfa, no);
      }
    }

    /** One turn of the loop of `CopyTable`, with what the loop comes to from here on. */
    method CopyNth(ktable: nat, i: Index, vaddr: nat, level: nat, gfa: BumpFrameAllocator, ghost no: nat)
      returns (r: MapResult)
      requires Usable(gfa) && ktable < m.PpnLimit() && level < m.Levels()
      requires no < Span(m.Levels() - level) && AtPage(m, vaddr, no, level) && SameVpn(m, vaddr, Times(no, Size(level)))
      modifies ram, gfa
      ensures Usable(gfa)
      ensures old(CopyFrom(m, State(gfa), rpt, ktable, no, level, i))
           == if r.Err? then (State(gfa), r) else CopyFrom(m, State(gfa), rpt, ktable, no + 1, level, i + 1)
      decreases level, 1
    {
      ghost var s := State(gfa);
      r := CopyAt(ram.frames[ktable][i], vaddr, level, gfa, no);
      CopyTurn(m, s, rpt, ktable, no, level, i, State(gfa), r);
    }

    /** Copies the entries of the kernel table in frame `ktable`, numbered `b`, into this tree. */
    method CopyTable(ktable: nat, base: nat, level: nat, gfa: BumpFrameAllocator, ghost b: nat) returns (r: MapResult)
      requires Usable(gfa) && ktable < m.PpnLimit() && level < m.Levels()
      requires b < Span(m.Levels() - 1 - level) && AtPage(m, base, b, level + 1)
      modifies ram, gfa
      ensures Usable(gfa)
      ensures (State(gfa), r) == old(CopyFrom(m, State(gfa), rpt, ktable, 512 * b, level, 0))
      decreases level, 2
    {
      ghost var all, no := CopyFrom(m, State(gfa), rpt, ktable, 512 * b, level, 0), 512 * b;
      for i := 0 to 512
        invariant Usable(gfa) && no == 512 * b + i && CopyFrom(m, State(gfa), rpt, ktable, no, level, i) == all
      {
        var vaddr := EntryAddr(base, i, level, b, no);
        r := CopyNth(ktable, i, vaddr, level, gfa, no);
        no := no + 1;
        if r.Err? {
          return;
        }
      }
      r := Ok;
    }

    /** Copies the mappings of the tree at `kernel`, except those of the user, into this tree. */
    method CopyKernelMappings(kernel: nat, gfa: BumpFrameAllocator) returns (r: MapResult)
      requires Usable(gfa) && kernel < m.PpnLimit()
      modifies ram, gfa
      ensures Usable(gfa)
      ensures (State(gfa), r) == old(CopyFrom(m, State(gfa), rpt, kernel, 0, m.Levels() - 1, 0))
    {
      r := CopyTable(kernel, NewTruncated(m, 0), m.Levels() - 1, gfa, 0);
    }

    /** `CopyKernelMappings` from a well-formed tree `kt` into this cleared root. */
    method CopyInTree(kernel: nat, gfa: BumpFrameAllocator, ghost kt: Tree) returns (r: MapResult, ghost ut: Tree)
      requires Usable(gfa) && ram.frames[rpt] == EmptyTable() && !Free(gfa.Gfa(), rpt)
      requires Wf(m, ram.frames, kt) && kt[[]] == kernel && Fresh(gfa.Gfa(), kt) && !Owned(kt, rpt)
      modifies ram, gfa
      ensures CopyEffect(m, old(State(gfa)), kt, rpt, State(gfa), ut, r)
      ensures Wf(m, ram.frames, kt) && SameWalks(m, old(ram.frames), ram.frames, kernel)
    {
      ghost var s := State(gfa);
      ghost var s', r' := CopyRefines(m, s, kt, rpt);
      r := CopyKernelMappings(kernel, gfa);
      ut :| CopyEffect(m, s, kt, rpt, s', ut, r');
      Untouched(m, s.mem, ram.frames, kt);
    }
  }

  lemma {:induction false} Rounding(start: nat, len: nat, n: nat)
    requires n == (AlignUp(start + len) - AlignDown(start)) / 4096
    ensures n == PagesMet(start, len) && AlignDown(start) + 4096 * n == AlignUp(start + len)
  {
  }

  lemma {:induction false} RoundsTo(start: nat, end: nat, base: nat, n: nat)
    requires start <= end && base == AlignDown(start) && n == (AlignUp(end) - base) / 4096
    ensures n == PagesMet(start, end - start) && base + 4096 * n == AlignUp(end)
  {
    Rounding(start, end - start, n);
  }

  /** `a` is the first address of page number `no` of level `l`. */
  predicate AtPage(m: Mode, a: nat, no: nat, l: nat) {
    Canonical(m, a) && a % VaLimit(m) == Times(no, Size(l))
  }

  lemma {:induction false} EntryAddrOk(m: Mode, base: nat, i: Index, l: nat, b: nat, no: nat, d: nat)
    requires l < m.Levels() && b < Span(m.Levels() - 1 - l) && AtPage(m, base, b, l + 1)
    requires no == 512 * b + i && d == Times(i, Size(l))
    ensures no < Span(m.Levels() - l) && base + d < WORD && TryNew(m, base + d).Some?
    ensures AtPage(m, VirtAdd(m, base, d), no, l) && SameVpn(m, VirtAdd(m, base, d), Times(no, Size(l)))
  {
    TimesScale(b, Size(l));
    TimesSum(512 * b, i, Size(l));
    PagesFill(m, no + 1, l);
    SumAddr(m, base, d, Times(no, Size(l)));
  }

  lemma {:induction false} SumAddr(m: Mode, base: nat, d: nat, x: nat)
    requires Canonical(m, base) && base % VaLimit(m) + d == x < VaLimit(m)
    ensures base + d < WORD && TryNew(m, base + d).Some?
    ensures Canonical(m, VirtAdd(m, base, d)) && VirtAdd(m, base, d) % VaLimit(m) == x
    ensures SameVpn(m, VirtAdd(m, base, d), x)
  {
    NoPanic(m, base, d);
    TryNewCanonical(m, base + d);
    DivModUnique(base + d, VaLimit(m), base / VaLimit(m), x);
    SameDigits(m, VirtAdd(m, base, d), x);
  }

  lemma {:induction false} SameDigits(m: Mode, a: nat, x: nat)
    requires a % VaLimit(m) == x < VaLimit(m)
    ensures SameVpn(m, a, x)
  {
    SmallMod(x, VaLimit(m));
    SamePage(m, a, x, 0);
    assert VpnOf(m, a)[0..] == VpnOf(m, a) && VpnOf(m, x)[0..] == VpnOf(m, x);
  }

  /** Addresses in `[lo, hi)` translate to themselves, all others as before. */
  ghost predicate IdentityWithin(m: Mode, mem: Frames, mem': Frames, root: nat, lo: nat, hi: nat)
    requires Ram(m, mem) && Ram(m, mem') && root < m.PpnLimit()
  {
    forall x: nat {:trigger VirtToPhys(m, mem', root, x)} ::
      VirtToPhys(m, mem', root, x) == if lo <= x % VaLimit(m) < hi then Some(x % VaLimit(m))
        else VirtToPhys(m, mem, root, x)
  }

  lemma {:induction false} IdentityPages(m: Mode, base: nat, end: nat, n: nat)
    requires base % 4096 == 0 && end == base + 4096 * n && end <= VaLimit(m) && end <= m.PpnLimit() * 4096
    ensures RangeOk(m, base, base, n, 0) && (n > 0 ==> Page(m, base, 0) == base / 4096)
  {
    Sizes();
    if n > 0 {
      SmallMod(base, VaLimit(m));
    }
    TimesIs(n, Span(0));
  }

  lemma {:induction false} IdentityTranslates(m: Mode, mem: Frames, mem': Frames, root: nat, base: nat, end: nat,
      n: nat, flags: Flags, x: nat)
    requires Ram(m, mem) && Ram(m, mem') && root < m.PpnLimit() && base % 4096 == 0 && end == base + 4096 * n
    requires n > 0 ==> Page(m, base, 0) == base / 4096
    requires RangeRedirected(m, mem, mem', root, Page(m, base, 0), n, 0, base / 4096, flags)
    ensures VirtToPhys(m, mem', root, x)
         == if base <= x % VaLimit(m) < end then Some(x % VaLimit(m)) else VirtToPhys(m, mem, root, x)
  {
    var d := Page(m, x, 0) - Page(m, base, 0);
    Sizes();
    RangeTranslates(m, mem, mem', root, base, base, n, 0, flags, x);
    if n > 0 {
      IdentityOffset(m, base, n, x);
      if 0 <= d < n {
        TimesIs(d, Size(0));
      }
    }
  }

  /** What mapping the `n` pages from `base` on to themselves does: each address of theirs leads to itself. */
  lemma {:induction false} IdentityMaps(m: Mode, mem: Frames, mem': Frames, root: nat, base: nat, end: nat, n: nat,
      flags: Flags)
    requires Ram(m, mem) && Ram(m, mem') && root < m.PpnLimit() && base % 4096 == 0 && end == base + 4096 * n
    requires n > 0 ==> Page(m, base, 0) == base / 4096
    requires RangeRedirected(m, mem, mem', root, Page(m, base, 0), n, 0, base / 4096, flags)
    ensures IdentityWithin(m, mem, mem', root, base, end)
  {
    forall x: nat {:trigger VirtToPhys(m, mem', root, x)}
      ensures VirtToPhys(m, mem', root, x)
           == if base <= x % VaLimit(m) < end then Some(x % VaLimit(m)) else VirtToPhys(m, mem, root, x)
    {
      IdentityTranslates(m, mem, mem', root, base, end, n, flags, x);
    }
  }

  lemma {:induction false} IdentityOffset(m: Mode, base: nat, n: nat, x: nat)
    requires base % 4096 == 0 && Page(m, base, 0) == base / 4096
    ensures 0 <= Page(m, x, 0) - Page(m, base, 0) < n <==> base <= x % VaLimit(m) < base + 4096 * n
    ensures x % VaLimit(m) == base + 4096 * (Page(m, x, 0) - Page(m, base, 0)) + x % 4096 && Size(0) == 4096
  {
    Sizes();
    LowBits(m, x);
  }

  lemma {:induction false} LowBits(m: Mode, x: nat)
    ensures x % VaLimit(m) % 4096 == x % 4096
  {
  }

  /** A walker over a freshly allocated, cleared root table; null when frames run out. */
  method NewRoot(m: Mode, ram: PhysMemory, gfa: BumpFrameAllocator) returns (w: PageTableWalker?)
    requires StOk(m, St(ram.frames, gfa.Gfa()))
    modifies ram, gfa
    ensures w == null <==> Exhausted(old(gfa.Gfa()), 1)
    ensures w == null ==> ram.frames == old(ram.frames) && gfa.Gfa() == old(gfa.Gfa())
    ensures w != null ==>
              && fresh(w) && w.m == m && w.ram == ram && w.Usable(gfa)
              && Free(old(gfa.Gfa()), w.rpt) && !Free(gfa.Gfa(), w.rpt) && gfa.ptr == old(gfa.ptr) + 4096
              && ram.frames == old(ram.frames)[w.rpt := EmptyTable()]
  {
    var frame := gfa.Alloc(1);
    if frame.None? {
      return null;
    }
    var rpt := frame.value / 4096;
    ram.frames := ram.frames[rpt := EmptyTable()];
    w := new PageTableWalker(m, ram, rpt);
  }
}
