/** The coalescing page-table dump, with addresses counted in 4 KiB pages of the address space. */
module Dump {
  import opened Arith
  import opened Paging
  import opened Addr
  import opened Ranges
  import opened Wrappers

  /** A dumped chunk: `size` consecutive pages from `virt` on `size` consecutive frames from `phys`. */
  datatype Chunk = Chunk(virt: nat, phys: nat, size: nat, flags: Flags)

  /** One mapped 4 KiB page. */
  datatype PageMap = PageMap(virt: nat, phys: nat, flags: Flags)

  function Expand(virt: nat, phys: nat, size: nat, flags: Flags): (s: seq<PageMap>)
    ensures |s| == size
    ensures forall k :: 0 <= k < size ==> s[k] == PageMap(virt + k, phys + k, flags)
  {
    seq(size, k requires k >= 0 => PageMap(virt + k, phys + k, flags))
  }

  function ExpandAll(cs: seq<Chunk>): seq<PageMap> {
    if cs == [] then []
    else var c := cs[|cs| - 1]; ExpandAll(cs[..|cs| - 1]) + Expand(c.virt, c.phys, c.size, c.flags)
  }

  /** The printed chunks and the one still being built. */
  function Shown(lines: seq<Chunk>, last: Option<Chunk>): seq<PageMap> {
    ExpandAll(if last.Some? then lines + [last.value] else lines)
  }

  /** The mapped pages below entries `i` and up of table `f`, in order; `base` numbers the table. */
  function Leaves(m: Mode, mem: Frames, f: nat, l: nat, base: nat, i: nat): seq<PageMap>
    requires Ram(m, mem) && f < m.PpnLimit() && i <= 512
    decreases l, 512 - i
  {
    if i == 512 then [] else Below(m, mem, mem[f][i], l, 512 * base + i) + Leaves(m, mem, f, l, base, i + 1)
  }

  /** The mapped pages below one entry, number `v` of its level. */
  function Below(m: Mode, mem: Frames, e: Entry, l: nat, v: nat): seq<PageMap>
    requires Ram(m, mem) && e.ppn < m.PpnLimit()
    decreases l, 0
  {
    if !e.IsValid() then []
    else if e.IsLeaf() then Expand(Times(v, Span(l)), e.ppn, Span(l), e.flags)
    else if l == 0 then []
    else Leaves(m, mem, e.ppn, l - 1, v, 0)
  }

  lemma {:induction false} ShownMore(lines: seq<Chunk>, last: Option<Chunk>, c: Chunk)
    ensures Shown(if last.Some? then lines + [last.value] else lines, Some(c))
        == Shown(lines, last) + Expand(c.virt, c.phys, c.size, c.flags)
  {
    var ls := if last.Some? then lines + [last.value] else lines;
    assert (ls + [c])[..|ls|] == ls;
  }

  lemma {:induction false} ShownGrows(lines: seq<Chunk>, c: Chunk, size: nat)
    ensures Shown(lines, Some(c.(size := c.size + size)))
        == Shown(lines, Some(c)) + Expand(c.virt + c.size, c.phys + c.size, size, c.flags)
  {
    var d := c.(size := c.size + size);
    assert (lines + [c])[..|lines|] == lines && (lines + [d])[..|lines|] == lines;
    assert Expand(c.virt, c.phys, c.size, c.flags) + Expand(c.virt + c.size, c.phys + c.size, size, c.flags)
      == Expand(d.virt, d.phys, d.size, d.flags);
  }

  /** Physical addresses have 56 bits: a sum that reaches this frame number panics. */
  const PHYS_FRAMES: nat := 0x1000_0000_0000

  /** No page in the last frame is followed by the next virtual page. */
  predicate NoTop(s: seq<PageMap>) {
    forall k {:trigger s[k]} :: 0 <= k < |s| - 1 ==>
      !(s[k].phys + 1 >= 0x1000_0000_0000 && s[k + 1].virt == s[k].virt + 1)
  }

  predicate TopMeets(s: seq<PageMap>, virt: nat) {
    s != [] && s[|s| - 1].phys + 1 >= 0x1000_0000_0000 && virt == s[|s| - 1].virt + 1
  }

  lemma {:induction false} NoTopAppend(s: seq<PageMap>, virt: nat, phys: nat, size: nat, flags: Flags)
    requires size > 0 && phys + size <= 0x1000_0000_0000
    ensures NoTop(s + Expand(virt, phys, size, flags)) <==> NoTop(s) && !TopMeets(s, virt)
  {
    var e := Expand(virt, phys, size, flags);
    var t := s + e;
    assert forall k {:trigger s[k]} :: 0 <= k < |s| ==> t[k] == s[k];
    assert forall k {:trigger e[k]} :: 0 <= k < |e| ==> t[|s| + k] == e[k];
    assert e[0].virt == virt;
    if NoTop(t) {
      forall k {:trigger s[k]} | 0 <= k < |s| - 1
        ensures !(s[k].phys + 1 >= 0x1000_0000_0000 && s[k + 1].virt == s[k].virt + 1)
      {
        assert t[k] == s[k] && t[k + 1] == s[k + 1];
      }
      if s != [] {
        assert t[|s| - 1] == s[|s| - 1] && t[|s|] == e[0];
      }
    }
    if NoTop(s) && !TopMeets(s, virt) {
      forall k {:trigger t[k]} | 0 <= k < |t| - 1
        ensures !(t[k].phys + 1 >= 0x1000_0000_0000 && t[k + 1].virt == t[k].virt + 1)
      {
        if k + 1 < |s| {
          assert t[k] == s[k] && t[k + 1] == s[k + 1];
        } else if k >= |s| {
          assert t[k] == e[k - |s|];
        }
      }
    }
  }

  lemma {:induction false} NoTopPrefix(s: seq<PageMap>, t: seq<PageMap>)
    requires NoTop(s + t)
    ensures NoTop(s)
  {
    assert forall k {:trigger s[k]} :: 0 <= k < |s| ==> (s + t)[k] == s[k];
  }

  /** A chunk is being built whenever something was seen, and is not empty. */
  predicate Building(lines: seq<Chunk>, last: Option<Chunk>) {
    if last.None? then lines == [] else last.value.size > 0
  }

  lemma {:induction false} LastShown(lines: seq<Chunk>, c: Chunk)
    requires c.size > 0
    ensures var s := Shown(lines, Some(c));
            s != [] && s[|s| - 1] == PageMap(c.virt + c.size - 1, c.phys + c.size - 1, c.flags)
  {
    assert (lines + [c])[..|lines|] == lines;
  }

  /** The virtual addresses of a dump come from `VirtAddr::new` on `4096 * page`.  For pages of the address
      space that never panics and tells pages apart, and adding a size moves on by as many pages, so that
      comparing addresses is comparing page numbers. */
  lemma {:induction false} ChunkEnd(m: Mode, virt: nat, size: nat, next: nat)
    requires virt + size <= next && 4096 * next < VaLimit(m)
    ensures TryNew(m, 4096 * virt).Some? && TryNew(m, 4096 * next).Some?
    ensures var a := TryNew(m, 4096 * virt).value;
            a + 4096 * size < WORD
            && TryNew(m, a + 4096 * size).Some?
            && (TryNew(m, a + 4096 * size) == TryNew(m, 4096 * next) <==> virt + size == next)
  {
    PageAddr(m, 4096 * virt);
    PageAddr(m, 4096 * next);
    PageAddr(m, 4096 * (virt + size));
    TryNewCanonical(m, TryNew(m, 4096 * virt).value + 4096 * size);
  }

  lemma {:induction false} PageAddr(m: Mode, n: nat)
    requires n < VaLimit(m)
    ensures TryNew(m, n) == Some(if n < VaLimit(m) / 2 then n else WORD - VaLimit(m) + n)
  {
    match m
    case Sv39 =>
    case Sv48 =>
  }

  /** The addition of a chunk's size to its physical address panics exactly when it reaches the last frame
      and the next leaf is virtually adjacent. */
  predicate SumPanics(last: Option<Chunk>, virt: nat) {
    last.Some? && virt == last.value.virt + last.value.size && last.value.phys + last.value.size >= 0x1000_0000_0000
  }

  lemma {:induction false} SumPanicsIff(lines: seq<Chunk>, last: Option<Chunk>, virt: nat)
    requires Building(lines, last)
    ensures SumPanics(last, virt) <==> TopMeets(Shown(lines, last), virt)
  {
    if last.Some? {
      LastShown(lines, last.value);
    }
  }

  /** The kernel console, of which only the dumped chunks matter. */
  class Console {
    var lines: seq<Chunk>

    constructor ()
      ensures lines == []
    {
      lines := [];
    }

    /** A leaf: merged into the current chunk, or the start of a new one; false is the panic. */
    method Leaf(virt: nat, phys: nat, size: nat, flags: Flags, mapping: Option<Chunk>)
      returns (ok: bool, r: Option<Chunk>)
      requires size > 0 && Building(lines, mapping)
      modifies this
      ensures ok <==> !SumPanics(mapping, virt)
      ensures ok ==> Building(lines, r)
      ensures ok ==> Shown(lines, r) == old(Shown(lines, mapping)) + Expand(virt, phys, size, flags)
    {
      ShownMore(lines, mapping, Chunk(virt, phys, size, flags));
      if mapping.Some? {
        var c := mapping.value;
        if virt == c.virt + c.size {
          if c.phys + c.size >= PHYS_FRAMES {
            return false, mapping;
          }
          if phys == c.phys + c.size && c.flags == flags {
            ShownGrows(lines, c, size);
            return true, Some(c.(size := c.size + size));
          }
        }
        lines := lines + [c];
      }
      return true, Some(Chunk(virt, phys, size, flags));
    }

    /** One turn of the loop of `Table`. */
    method At(m: Mode, mem: Frames, entry: Entry, l: nat, v: nat, mapping: Option<Chunk>)
      returns (ok: bool, r: Option<Chunk>)
      requires Ram(m, mem) && entry.ppn < m.PpnLimit() && EntryFits(m, mem, entry, l)
      requires Building(lines, mapping) && NoTop(Shown(lines, mapping))
      modifies this
      ensures ok ==> Building(lines, r) && Shown(lines, r) == old(Shown(lines, mapping)) + Below(m, mem, entry, l, v)
      ensures ok <==> NoTop(old(Shown(lines, mapping)) + Below(m, mem, entry, l, v))
      decreases l, 0
    {
      ok, r := true, mapping;
      if !entry.IsValid() {
        assert Below(m, mem, entry, l, v) == [] && Shown(lines, mapping) + [] == Shown(lines, mapping);
      } else if entry.IsLeaf() {
        NoTopAppend(Shown(lines, mapping), Times(v, Span(l)), entry.ppn, Span(l), entry.flags);
        SumPanicsIff(lines, mapping, Times(v, Span(l)));
        ok, r := Leaf(Times(v, Span(l)), entry.ppn, Span(l), entry.flags, mapping);
      } else {
        ok, r := Table(m, mem, entry.ppn, l - 1, v, mapping);
      }
    }

    /** `_dump_page_table` on table `f` of level `l`, which `base` numbers. */
    method Table(m: Mode, mem: Frames, f: nat, l: nat, base: nat, mapping: Option<Chunk>)
      returns (ok: bool, r: Option<Chunk>)
      requires Ram(m, mem) && f < m.PpnLimit() && Leveled(m, mem, f, l)
      requires Building(lines, mapping) && NoTop(Shown(lines, mapping))
      modifies this
      ensures ok ==> Building(lines, r) && Shown(lines, r) == old(Shown(lines, mapping)) + Leaves(m, mem, f, l, base, 0)
      ensures ok <==> NoTop(old(Shown(lines, mapping)) + Leaves(m, mem, f, l, base, 0))
      decreases l, 1
    {
      r := mapping;
      ghost var all := Shown(lines, r) + Leaves(m, mem, f, l, base, 0);
      for i := 0 to 512
        invariant Building(lines, r) && NoTop(Shown(lines, r)) && Shown(lines, r) + Leaves(m, mem, f, l, base, i) == all
      {
        ghost var before, rest := Shown(lines, r), Leaves(m, mem, f, l, base, i + 1);
        var entry, v := mem[f][i], 512 * base + i;
        LeavesAt(m, mem, f, l, base, i, before);
        ok, r := At(m, mem, entry, l, v, r);
        if !ok {
          PanicsLater(before + Below(m, mem, entry, l, v), rest, all);
          return;
        }
      }
      return true, r;
    }

    /** `dump_active_root_page_table`: everything dumped, chunk by chunk.  It panics if and only if a page in
        the last frame is followed by the next virtual page. */
    method Root(m: Mode, mem: Frames, root: nat, ghost t: Tree) returns (ok: bool)
      requires Wf(m, mem, t) && t[[]] == root && lines == []
      modifies this
      ensures ok ==> ExpandAll(lines) == Leaves(m, mem, root, m.Levels() - 1, 0, 0)
      ensures ok <==> NoTop(Leaves(m, mem, root, m.Levels() - 1, 0, 0))
    {
      TreeLeveled(m, mem, t, []);
      assert [] + Leaves(m, mem, root, m.Levels() - 1, 0, 0) == Leaves(m, mem, root, m.Levels() - 1, 0, 0);
      var r;
      ok, r := Table(m, mem, root, m.Levels() - 1, 0, None);
      if ok && r.Some? {
        lines := lines + [r.value];
      }
    }
  }

  lemma {:induction false} LeavesAt(m: Mode, mem: Frames, f: nat, l: nat, base: nat, i: nat, before: seq<PageMap>)
    requires Ram(m, mem) && f < m.PpnLimit() && i < 512
    ensures before + Leaves(m, mem, f, l, base, i)
         == before + Below(m, mem, mem[f][i], l, 512 * base + i) + Leaves(m, mem, f, l, base, i + 1)
  {
    Regroup(before, Below(m, mem, mem[f][i], l, 512 * base + i), Leaves(m, mem, f, l, base, i + 1));
  }

  lemma {:induction false} PanicsLater(s: seq<PageMap>, rest: seq<PageMap>, all: seq<PageMap>)
    requires !NoTop(s) && all == s + rest
    ensures !NoTop(all)
  {
    if NoTop(s + rest) {
      NoTopPrefix(s, rest);
    }
  }

  lemma {:induction false} Regroup(a: seq<PageMap>, b: seq<PageMap>, c: seq<PageMap>)
    ensures a + (b + c) == a + b + c
  {
  }

  /** With Sv39 entries frame numbers are too short for the sum to panic. */
  lemma {:induction false} Sv39NeverPanics(mem: Frames, t: Tree)
    requires Wf(Sv39, mem, t)
    ensures NoTop(Leaves(Sv39, mem, t[[]], 2, 0, 0))
  {
    LeavesLow(Sv39, mem, t, [], 2, 0, 0);
  }

  predicate Low(s: seq<PageMap>, limit: nat) {
    forall k {:trigger s[k]} :: 0 <= k < |s| ==> s[k].phys < limit
  }

  lemma {:induction false} LowJoined(s: seq<PageMap>, t: seq<PageMap>, limit: nat)
    requires Low(s, limit) && Low(t, limit)
    ensures Low(s + t, limit)
  {
  }

  /** Every page a well-formed tree lists lies in a frame an entry can hold. */
  lemma {:induction false} LeavesLow(m: Mode, mem: Frames, t: Tree, p: seq<Index>, l: nat, base: nat, i: nat)
    requires Wf(m, mem, t) && p in t && i <= 512 && l == LevelOf(m, p)
    ensures Low(Leaves(m, mem, t[p], l, base, i), m.PpnLimit())
    decreases l, 512 - i
  {
    if i < 512 {
      BelowLow(m, mem, t, p, l, 512 * base + i, i);
      LeavesLow(m, mem, t, p, l, base, i + 1);
      LowJoined(Below(m, mem, mem[t[p]][i], l, 512 * base + i), Leaves(m, mem, t[p], l, base, i + 1), m.PpnLimit());
    }
  }

  lemma {:induction false} LeafLow(m: Mode, mem: Frames, e: Entry, l: nat, v: nat, limit: nat)
    requires Ram(m, mem) && e.ppn < m.PpnLimit() && e.IsValid() && e.IsLeaf() && e.ppn + Span(l) <= limit
    ensures Low(Below(m, mem, e, l, v), limit)
  {
    var s := Expand(Times(v, Span(l)), e.ppn, Span(l), e.flags);
    assert Below(m, mem, e, l, v) == s;
  }

  lemma {:induction false} BelowLow(m: Mode, mem: Frames, t: Tree, p: seq<Index>, l: nat, v: nat, i: Index)
    requires Wf(m, mem, t) && p in t && l == LevelOf(m, p)
    ensures Low(Below(m, mem, mem[t[p]][i], l, v), m.PpnLimit())
    decreases l, 0
  {
    var e := mem[t[p]][i];
    assert EntryOk(m, t, p, i, e);
    if e.IsPointer() {
      assert Linked(mem, t, [i] + p) && ([i] + p)[1..] == p;
      LeavesLow(m, mem, t, [i] + p, l - 1, v, 0);
    } else if e.IsValid() {
      LeafFits(m, e.ppn, l);
      LeafLow(m, mem, e, l, v, m.PpnLimit());
    }
  }

  /** The frames of an aligned leaf fit. */
  lemma {:induction false} LeafFits(m: Mode, ppn: nat, l: nat)
    requires l < m.Levels() && ppn % Span(l) == 0 && ppn < m.PpnLimit()
    ensures ppn + Span(l) <= m.PpnLimit()
  {
    var q := SpanFits(m, l);
    var a := ppn / Span(l);
    assert ppn == a * Span(l);
    Distribute(a, 1, Span(l));
    if a >= q {
      MulLe(q, a, Span(l));
    } else {
      MulLe(a + 1, q, Span(l));
    }
  }

  /** A leaf's frames fit, and a pointer leads to a table of the level below. */
  ghost predicate EntryFits(m: Mode, mem: Frames, e: Entry, l: nat)
    requires Ram(m, mem) && e.ppn < m.PpnLimit()
    decreases l, 0
  {
    && (e.IsPointer() ==> l > 0 && Leveled(m, mem, e.ppn, l - 1))
    && (e.IsValid() && e.IsLeaf() ==> e.ppn + Span(l) <= 0x1000_0000_0000)
  }

  ghost predicate Leveled(m: Mode, mem: Frames, f: nat, l: nat)
    requires Ram(m, mem) && f < m.PpnLimit()
    decreases l, 1
  {
    forall i: Index {:trigger mem[f][i]} :: EntryFits(m, mem, mem[f][i], l)
  }

  lemma {:induction false} TreeLeveled(m: Mode, mem: Frames, t: Tree, p: seq<Index>)
    requires Wf(m, mem, t) && p in t
    ensures Leveled(m, mem, t[p], LevelOf(m, p))
    decreases m.Levels() - |p|
  {
    forall i: Index {:trigger mem[t[p]][i]}
      ensures EntryFits(m, mem, mem[t[p]][i], LevelOf(m, p))
    {
      var e := mem[t[p]][i];
      assert EntryOk(m, t, p, i, e);
      if e.IsPointer() {
        assert Linked(mem, t, [i] + p) && ([i] + p)[1..] == p;
        TreeLeveled(m, mem, t, [i] + p);
      } else if e.IsValid() {
        LeafFits(m, e.ppn, LevelOf(m, p));
      }
    }
  }

  // ---------- the dumped pages are the mapped pages ----------

  /** All pages of `s` lie in `[lo, hi)`, in ascending order. */
  ghost predicate Between(s: seq<PageMap>, lo: nat, hi: nat) {
    && (forall k :: 0 <= k < |s| ==> lo <= s[k].virt < hi)
    && (forall j, k :: 0 <= j < k < |s| ==> s[j].virt < s[k].virt)
  }

  lemma {:induction false} Joined(s: seq<PageMap>, t: seq<PageMap>, lo: nat, mid: nat, hi: nat)
    requires Between(s, lo, mid) && Between(t, mid, hi) && lo <= mid <= hi
    ensures Between(s + t, lo, hi)
  {
  }

  lemma {:induction false} LeavesBetween(m: Mode, mem: Frames, f: nat, l: nat, base: nat, i: nat)
    requires Ram(m, mem) && f < m.PpnLimit() && i <= 512
    ensures Between(Leaves(m, mem, f, l, base, i), Times(512 * base + i, Span(l)), Times(512 * base + 512, Span(l)))
    decreases l, 512 - i
  {
    if i < 512 {
      var v := 512 * base + i;
      BelowBetween(m, mem, mem[f][i], l, v);
      LeavesBetween(m, mem, f, l, base, i + 1);
      TimesSum(v + 1, 512 - i - 1, Span(l));
      Joined(Below(m, mem, mem[f][i], l, v), Leaves(m, mem, f, l, base, i + 1), Times(v, Span(l)),
        Times(v + 1, Span(l)), Times(512 * base + 512, Span(l)));
    }
  }

  lemma {:induction false} BelowBetween(m: Mode, mem: Frames, e: Entry, l: nat, v: nat)
    requires Ram(m, mem) && e.ppn < m.PpnLimit()
    ensures Between(Below(m, mem, e, l, v), Times(v, Span(l)), Times(v + 1, Span(l)))
    decreases l, 0
  {
    if e.IsPointer() && l > 0 {
      LeavesBetween(m, mem, e.ppn, l - 1, v, 0);
      TimesScale(v, Span(l - 1));
      TimesScale(v + 1, Span(l - 1));
    }
  }

  lemma {:induction false} PageNoBetween(w: Vpn, l: nat)
    requires l <= |w|
    ensures Times(PageNo(w, l), Span(l)) <= PageNo(w, 0) < Times(PageNo(w, l) + 1, Span(l))
  {
    if l == 0 {
      TimesIs(PageNo(w, 0), 1);
    } else {
      PageNoBetween(w, l - 1);
      var p, q := PageNo(w, l - 1), PageNo(w, l);
      PageNoStep(w, l - 1);
      TimesScale(q, Span(l - 1));
      TimesScale(q + 1, Span(l - 1));
      TimesSum(512 * q, w[l - 1], Span(l - 1));
      TimesSum(p + 1, 512 * (q + 1) - (p + 1), Span(l - 1));
    }
  }

  lemma {:induction false} PageNoStep(w: Vpn, l: nat)
    requires l < |w|
    ensures PageNo(w, l) == 512 * PageNo(w, l + 1) + w[l]
  {
    assert w[l..][1..] == w[l + 1..];
  }

  /** Page `w` of a walk that found leaf `e` at level `k`. */
  function PageOf(w: Vpn, h: Hit): PageMap
    requires h.Hit? && h.level <= |w| && Times(PageNo(w, h.level), Span(h.level)) <= PageNo(w, 0)
  {
    PageMap(PageNo(w, 0), h.entry.ppn + (PageNo(w, 0) - Times(PageNo(w, h.level), Span(h.level))), h.entry.flags)
  }

  ghost predicate Dumped(m: Mode, mem: Frames, f: nat, l: nat, w: Vpn, x: PageMap)
    requires Ram(m, mem) && f < m.PpnLimit() && l < |w|
  {
    var h := Walk(m, mem, f, l, w);
    h.Hit? && Times(PageNo(w, h.level), Span(h.level)) <= PageNo(w, 0) && x == PageOf(w, h)
  }

  lemma {:induction false} Among(s: seq<PageMap>, lo: nat, hi: nat, x: PageMap)
    requires Between(s, lo, hi) && x in s
    ensures lo <= x.virt < hi
  {
  }

  /** Only the entry on the way of `w` can list the page of `w`. */
  lemma {:induction false} LeavesPick(m: Mode, mem: Frames, f: nat, l: nat, base: nat, i: nat, w: Vpn, x: PageMap)
    requires Ram(m, mem) && f < m.PpnLimit() && i <= 512 && l < |w| && PageNo(w, l + 1) == base
    requires x.virt == PageNo(w, 0)
    ensures x in Leaves(m, mem, f, l, base, i) <==> i <= w[l] && x in Below(m, mem, mem[f][w[l]], l, PageNo(w, l))
    decreases 512 - i
  {
    PageNoStep(w, l);
    PageNoBetween(w, l);
    if i < 512 {
      var v := 512 * base + i;
      LeavesPick(m, mem, f, l, base, i + 1, w, x);
      if i != w[l] && x in Below(m, mem, mem[f][i], l, v) {
        BelowBetween(m, mem, mem[f][i], l, v);
        Among(Below(m, mem, mem[f][i], l, v), Times(v, Span(l)), Times(v + 1, Span(l)), x);
        Ordered(v, PageNo(w, l), Span(l));
      }
    }
  }

  lemma {:induction false} Ordered(a: nat, b: nat, s: nat)
    ensures a < b ==> Times(a + 1, s) <= Times(b, s)
    ensures b < a ==> Times(b + 1, s) <= Times(a, s)
  {
    if a < b {
      TimesSum(a + 1, b - a - 1, s);
    } else if b < a {
      TimesSum(b + 1, a - b - 1, s);
    }
  }

  /** The dump lists a page if and only if the walk of the page finds it, with that frame and those flags. */
  lemma {:induction false} DumpIsWalk(m: Mode, mem: Frames, f: nat, l: nat, base: nat, w: Vpn, x: PageMap)
    requires Ram(m, mem) && f < m.PpnLimit() && l < |w| && PageNo(w, l + 1) == base && x.virt == PageNo(w, 0)
    ensures x in Leaves(m, mem, f, l, base, 0) <==> Dumped(m, mem, f, l, w, x)
    decreases l, 1
  {
    LeavesPick(m, mem, f, l, base, 0, w, x);
    BelowIsWalk(m, mem, f, l, w, x, mem[f][w[l]], PageNo(w, l));
  }

  lemma {:induction false} BelowIsWalk(m: Mode, mem: Frames, f: nat, l: nat, w: Vpn, x: PageMap, e: Entry, v: nat)
    requires Ram(m, mem) && f < m.PpnLimit() && l < |w| && x.virt == PageNo(w, 0) && e == mem[f][w[l]]
    requires v == PageNo(w, l)
    ensures x in Below(m, mem, e, l, v) <==> Dumped(m, mem, f, l, w, x)
    decreases l, 0
  {
    if e.IsPointer() && l > 0 {
      DumpIsWalk(m, mem, e.ppn, l - 1, v, w, x);
    } else if e.IsValid() && e.IsLeaf() {
      PageNoBetween(w, l);
      LeafLists(Times(v, Span(l)), Times(v + 1, Span(l)), Span(l), e, x);
    }
  }

  /** A leaf lists a page of its own exactly with the frame at the same distance. */
  lemma {:induction false} LeafLists(lo: nat, hi: nat, size: nat, e: Entry, x: PageMap)
    requires hi == lo + size && lo <= x.virt < hi
    ensures x in Expand(lo, e.ppn, size, e.flags) <==> x == PageMap(x.virt, e.ppn + (x.virt - lo), e.flags)
  {
    assert Expand(lo, e.ppn, size, e.flags)[x.virt - lo] == PageMap(x.virt, e.ppn + (x.virt - lo), e.flags);
  }
}
