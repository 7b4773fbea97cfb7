/** Sv39/Sv48 page tables as words in physical memory.

    Physical memory is a map from frame number to 512 entries, defined for every
    frame number an entry can hold.  `Walk` is the translation loop; a `Tree` is the
    ghost view of one address space: it maps the upper page-number digits that lead
    to a table to that table's frame.
 */
module Paging {

  datatype Mode = Sv39 | Sv48 {
    /** `PAGE_LEVELS` */
    function Levels(): nat { if Sv39? then 3 else 4 }

    /** One more than `PTE_PPN_MASK`. */
    function PpnLimit(): nat { if Sv39? then 0x400_0000 else 0x1000_0000_0000 }
  }

  /** `ppn & PTE_PPN_MASK` */
  function MaskPpn(m: Mode, ppn: nat): (r: nat)
    ensures r < m.PpnLimit() && (ppn < m.PpnLimit() ==> r == ppn)
  {
    if m.Sv39? then ppn % 0x400_0000 else ppn % 0x1000_0000_0000
  }

  // One constructor per bit of `EntryFlags`; PBMT is {BUF, CACHE} and RSW is {RSW0, RSW1}.
  datatype Flag =
    | VALID | READ | WRITE | EXEC | USER | GLOBAL | ACCESS | DIRTY
    | RSW0 | RSW1 | SHARE | BUF | CACHE | NAPOT

  type Flags = set<Flag>

  const RWXUG: Flags := {READ, WRITE, EXEC, USER, GLOBAL}
  const KERNEL: Flags := {READ, WRITE, EXEC, ACCESS, DIRTY, GLOBAL}
  const MMIO: Flags := {READ, WRITE, ACCESS, DIRTY, GLOBAL}

  predicate Maps(flags: Flags) {
    READ in flags || WRITE in flags || EXEC in flags
  }

  datatype Entry = Entry(ppn: nat, flags: Flags) {
    predicate IsValid() { VALID in flags }

    predicate IsLeaf() { Maps(flags) }

    predicate IsPointer() { IsValid() && !IsLeaf() }

    /** `set_ppn`: only the masked bits are stored. */
    function SetPpn(m: Mode, p: nat): Entry { this.(ppn := MaskPpn(m, p)) }

    /** `write_flags`: drops R, W, X, U and G, then ors in the new flags. */
    function WriteFlags(f: Flags): Entry { this.(flags := flags - RWXUG + f) }
  }

  const EMPTY: Entry := Entry(0, {})

  type Index = i: nat | i < 512

  /** Page-number digits of a virtual address, least significant first. */
  type Vpn = seq<Index>

  type Table = seq<Entry>
  type Frames = map<nat, Table>

  function EmptyTable(): (t: Table)
    ensures |t| == 512 && forall i :: 0 <= i < 512 ==> t[i] == EMPTY
  {
    seq(512, _ => EMPTY)
  }

  ghost predicate Ram(m: Mode, mem: Frames) {
    forall f :: 0 <= f < m.PpnLimit() ==> f in mem && TableOk(m, mem[f])
  }

  ghost predicate TableOk(m: Mode, t: Table) {
    |t| == 512 && forall i :: 0 <= i < 512 ==> t[i].ppn < m.PpnLimit()
  }

  function Put(mem: Frames, f: nat, i: Index, e: Entry): Frames
    requires f in mem && |mem[f]| == 512
  {
    mem[f := mem[f][i := e]]
  }

  lemma {:induction false} PutTwice(mem: Frames, f: nat, i: Index, d: Entry, e: Entry)
    requires f in mem && |mem[f]| == 512
    ensures Put(Put(mem, f, i, d), f, i, e) == Put(mem, f, i, e)
  {
    assert mem[f][i := d][i := e] == mem[f][i := e];
  }

  /** Where a walk ends: the table frame and level of the leaf it found, and the leaf. */
  datatype Hit = Miss | Hit(frame: nat, level: nat, entry: Entry)

  /** The loop of `virt_to_phys`, entered at table `f` of level `l`. */
  function Walk(m: Mode, mem: Frames, f: nat, l: nat, v: Vpn): (h: Hit)
    requires Ram(m, mem) && f < m.PpnLimit() && l < |v|
    ensures h.Hit? ==> h.frame < m.PpnLimit() && h.level <= l && h.entry.ppn < m.PpnLimit()
    ensures h.Hit? ==> h.entry.IsValid() && h.entry.IsLeaf()
    decreases l
  {
    var e := mem[f][v[l]];
    if !e.IsValid() then Miss
    else if e.IsLeaf() then Hit(f, l, e)
    else if l == 0 then Miss
    else Walk(m, mem, e.ppn, l - 1, v)
  }

  function WalkRoot(m: Mode, mem: Frames, root: nat, v: Vpn): Hit
    requires Ram(m, mem) && root < m.PpnLimit() && |v| == m.Levels()
  {
    Walk(m, mem, root, m.Levels() - 1, v)
  }

  ghost predicate SameWalks(m: Mode, mem: Frames, mem': Frames, root: nat)
    requires Ram(m, mem) && Ram(m, mem') && root < m.PpnLimit()
  {
    forall w: Vpn {:trigger WalkRoot(m, mem', root, w)} {:trigger WalkRoot(m, mem, root, w)} ::
      |w| == m.Levels() ==> WalkRoot(m, mem', root, w) == WalkRoot(m, mem, root, w)
  }

  /** Addresses in one leaf walk alike. */
  lemma {:induction false} WalkShared(m: Mode, mem: Frames, f: nat, l: nat, v: Vpn, w: Vpn)
    requires Ram(m, mem) && f < m.PpnLimit() && l < |v| == |w|
    requires var h := Walk(m, mem, f, l, w); h.Hit? && v[h.level..] == w[h.level..]
    ensures Walk(m, mem, f, l, v) == Walk(m, mem, f, l, w)
    decreases l
  {
    var k := Walk(m, mem, f, l, w).level;
    assert v[l] == v[k..][l - k] && w[l] == w[k..][l - k];
    var e := mem[f][w[l]];
    if e.IsPointer() {
      WalkShared(m, mem, e.ppn, l - 1, v, w);
    }
  }

  lemma {:induction false} SameTwice(m: Mode, mem: Frames, mem1: Frames, mem2: Frames, root: nat)
    requires Ram(m, mem) && Ram(m, mem1) && Ram(m, mem2) && root < m.PpnLimit()
    requires SameWalks(m, mem, mem1, root) && SameWalks(m, mem1, mem2, root)
    ensures SameWalks(m, mem, mem2, root)
  {
    forall w: Vpn {:trigger WalkRoot(m, mem2, root, w)} {:trigger WalkRoot(m, mem, root, w)} | |w| == m.Levels()
      ensures WalkRoot(m, mem2, root, w) == WalkRoot(m, mem, root, w)
    {
      assert WalkRoot(m, mem1, root, w) == WalkRoot(m, mem, root, w);
    }
  }

  // ---------- well-formed trees ----------

  type Tree = map<seq<Index>, nat>

  /** Pages covered by an entry of level `l`. */
  function Span(l: nat): (n: nat)
    ensures n >= 1
  {
    if l == 0 then 1 else 512 * Span(l - 1)
  }

  function LevelOf(m: Mode, p: seq<Index>): nat
    requires |p| < m.Levels()
  {
    m.Levels() - 1 - |p|
  }

  ghost predicate EntryOk(m: Mode, t: Tree, p: seq<Index>, i: Index, e: Entry)
    requires |p| < m.Levels()
  {
    if !e.IsValid() then e == EMPTY
    else if e.IsLeaf() then e.ppn % Span(LevelOf(m, p)) == 0
    else [i] + p in t
  }

  ghost predicate Apart(t: Tree, p: seq<Index>, q: seq<Index>)
    requires p in t && q in t
  {
    t[p] == t[q] ==> p == q
  }

  ghost predicate Linked(mem: Frames, t: Tree, p: seq<Index>)
    requires p in t && p != []
  {
    && p[1..] in t
    && t[p[1..]] in mem
    && |mem[t[p[1..]]]| == 512
    && mem[t[p[1..]]][p[0]].IsPointer()
    && mem[t[p[1..]]][p[0]].ppn == t[p]
  }

  /** Every table has one parent and one level, pointers never occur at level 0, superpage
      frames are aligned, and entries that are not valid are zero. */
  ghost predicate Wf(m: Mode, mem: Frames, t: Tree) {
    && Ram(m, mem)
    && [] in t
    && (forall p {:trigger t[p]} {:trigger p in t} :: p in t ==> |p| < m.Levels() && t[p] < m.PpnLimit())
    && (forall p, q {:trigger Apart(t, p, q)} :: p in t && q in t ==> Apart(t, p, q))
    && (forall p {:trigger Linked(mem, t, p)} :: p in t && p != [] ==> Linked(mem, t, p))
    && (forall p, i: Index {:trigger EntryOk(m, t, p, i, mem[t[p]][i])} :: p in t ==> EntryOk(m, t, p, i, mem[t[p]][i]))
  }

  /** The link to table `p` is a pointer that user mode may not follow. */
  ghost predicate PlainLink(mem: Frames, t: Tree, p: seq<Index>)
    requires p in t && p != []
  {
    Linked(mem, t, p) && USER !in mem[t[p[1..]]][p[0]].flags
  }

  /** No pointer of the tree has the USER bit. */
  ghost predicate Plain(mem: Frames, t: Tree) {
    forall p {:trigger PlainLink(mem, t, p)} :: p in t && p != [] ==> PlainLink(mem, t, p)
  }

  lemma {:induction false} SuffixClosed(m: Mode, mem: Frames, t: Tree, p: seq<Index>, j: nat)
    requires Wf(m, mem, t) && p in t && j <= |p|
    ensures p[j..] in t
  {
    if j == 0 {
      assert p[0..] == p;
    } else {
      assert Linked(mem, t, p);
      SuffixClosed(m, mem, t, p[1..], j - 1);
      assert p[1..][j - 1..] == p[j..];
    }
  }

  /** A pointer met on the way down leads to the table whose prefix has one more digit. */
  lemma {:induction false} PointerStep(m: Mode, mem: Frames, t: Tree, v: Vpn, l: nat)
    requires Wf(m, mem, t) && l < |v| == m.Levels() && v[l + 1..] in t
    requires mem[t[v[l + 1..]]][v[l]].IsPointer()
    ensures 0 < l && v[l..] in t && t[v[l..]] == mem[t[v[l + 1..]]][v[l]].ppn
  {
    var p := v[l + 1..];
    assert EntryOk(m, t, p, v[l], mem[t[p]][v[l]]);
    assert [v[l]] + p == v[l..];
    assert Linked(mem, t, v[l..]);
  }

  /** The leaf a walk finds is an entry of the table with the digits above it. */
  lemma {:induction false} HitTable(m: Mode, mem: Frames, t: Tree, v: Vpn, l: nat)
    requires Wf(m, mem, t) && l < |v| == m.Levels() && v[l + 1..] in t
    requires Walk(m, mem, t[v[l + 1..]], l, v).Hit?
    ensures var h := Walk(m, mem, t[v[l + 1..]], l, v);
            && h.level <= l && v[h.level + 1..] in t && t[v[h.level + 1..]] == h.frame
            && mem[h.frame][v[h.level]] == h.entry
    ensures var h := Walk(m, mem, t[v[l + 1..]], l, v);
            h.entry.ppn % Span(h.level) == 0
  {
    if mem[t[v[l + 1..]]][v[l]].IsPointer() {
      PointerStep(m, mem, t, v, l);
      HitTable(m, mem, t, v, l - 1);
    } else {
      assert EntryOk(m, t, v[l + 1..], v[l], mem[t[v[l + 1..]]][v[l]]);
    }
  }

  /** Only the frames of its own tables matter to a tree. */
  lemma {:induction false} WalkFrame(m: Mode, mem: Frames, mem': Frames, t: Tree, v: Vpn, l: nat)
    requires Wf(m, mem, t) && Ram(m, mem') && l < |v| == m.Levels() && v[l + 1..] in t
    requires forall p :: p in t ==> mem'[t[p]] == mem[t[p]]
    ensures Walk(m, mem', t[v[l + 1..]], l, v) == Walk(m, mem, t[v[l + 1..]], l, v)
  {
    if mem[t[v[l + 1..]]][v[l]].IsPointer() {
      PointerStep(m, mem, t, v, l);
      WalkFrame(m, mem, mem', t, v, l - 1);
    }
  }

  /** An edit that keeps off the frames of a tree keeps the tree and all its walks. */
  lemma {:induction false} Untouched(m: Mode, mem: Frames, mem': Frames, t: Tree)
    requires Wf(m, mem, t) && Ram(m, mem')
    requires forall p :: p in t ==> mem'[t[p]] == mem[t[p]]
    ensures Wf(m, mem', t)
    ensures SameWalks(m, mem, mem', t[[]])
  {
    forall p | p in t && p != []
      ensures Linked(mem', t, p)
    {
      assert Linked(mem, t, p);
    }
    forall w: Vpn {:trigger WalkRoot(m, mem', t[[]], w)} | |w| == m.Levels()
      ensures WalkRoot(m, mem', t[[]], w) == WalkRoot(m, mem, t[[]], w)
    {
      assert w[|w|..] == [];
      WalkFrame(m, mem, mem', t, w, |w| - 1);
    }
  }

  // ---------- the two edits every operation is made of ----------

  function WithTable(mem: Frames, t: Tree, p: seq<Index>, i: Index, g: nat): Frames
    requires p in t && t[p] in mem && |mem[t[p]]| == 512
  {
    Put(mem, t[p], i, Entry(g, {VALID}))[g := EmptyTable()]
  }

  ghost predicate CanAddTable(m: Mode, mem: Frames, t: Tree, p: seq<Index>, i: Index, g: nat) {
    && Wf(m, mem, t) && p in t && |p| < m.Levels() - 1
    && !mem[t[p]][i].IsValid()
    && g < m.PpnLimit() && (forall q :: q in t ==> t[q] != g)
  }

  /** `mem'` is `mem` with the entry `i` of table `p` made a pointer to an empty table `g`. */
  ghost predicate TableAdded(m: Mode, mem: Frames, mem': Frames, t: Tree, p: seq<Index>, i: Index, g: nat)
    requires CanAddTable(m, mem, t, p, i, g)
  {
    && Ram(m, mem')
    && (forall j: Index :: mem'[g][j] == EMPTY)
    && mem'[t[p]][i] == Entry(g, {VALID})
    && (forall q, j: Index :: q in t && !(q == p && j == i) ==> mem'[t[q]][j] == mem[t[q]][j])
  }

  lemma {:induction false} WithTableAdds(m: Mode, mem: Frames, t: Tree, p: seq<Index>, i: Index, g: nat)
    requires CanAddTable(m, mem, t, p, i, g)
    ensures TableAdded(m, mem, WithTable(mem, t, p, i, g), t, p, i, g)
  {
    assert forall q :: q in t ==> Apart(t, p, q);
  }

  lemma {:induction false} AddTable(m: Mode, mem: Frames, mem': Frames, t: Tree, p: seq<Index>, i: Index, g: nat)
    requires CanAddTable(m, mem, t, p, i, g) && TableAdded(m, mem, mem', t, p, i, g)
    ensures [i] + p !in t
    ensures Wf(m, mem', t[[i] + p := g])
  {
    var t' := t[[i] + p := g];
    assert ([i] + p)[1..] == p;
    assert [i] + p in t ==> Linked(mem, t, [i] + p);
    forall q, r | q in t' && r in t'
      ensures Apart(t', q, r)
    {
      if q in t && r in t {
        assert Apart(t, q, r);
      }
    }
    forall q | q in t' && q != []
      ensures Linked(mem', t', q)
    {
      if q != [i] + p {
        assert Linked(mem, t, q);
      }
    }
    forall q, j: Index | q in t'
      ensures EntryOk(m, t', q, j, mem'[t'[q]][j])
    {
      if q != [i] + p {
        assert EntryOk(m, t, q, j, mem[t[q]][j]);
      }
    }
  }

  lemma {:induction false} AddTablePlain(m: Mode, mem: Frames, mem': Frames, t: Tree, p: seq<Index>, i: Index, g: nat)
    requires CanAddTable(m, mem, t, p, i, g) && TableAdded(m, mem, mem', t, p, i, g) && Plain(mem, t)
    requires Wf(m, mem', t[[i] + p := g])
    ensures Plain(mem', t[[i] + p := g])
  {
    var t' := t[[i] + p := g];
    assert ([i] + p)[1..] == p;
    forall q {:trigger PlainLink(mem', t', q)} | q in t' && q != []
      ensures PlainLink(mem', t', q)
    {
      assert Linked(mem', t', q);
      if q != [i] + p {
        assert PlainLink(mem, t, q);
      }
    }
  }

  /** A new, empty table changes no walk. */
  lemma {:induction false} AddTableWalk(m: Mode, mem: Frames, mem': Frames, t: Tree, p: seq<Index>, i: Index, g: nat,
      v: Vpn, l: nat)
    requires CanAddTable(m, mem, t, p, i, g) && TableAdded(m, mem, mem', t, p, i, g)
    requires l < |v| == m.Levels() && v[l + 1..] in t
    ensures Walk(m, mem', t[v[l + 1..]], l, v) == Walk(m, mem, t[v[l + 1..]], l, v)
  {
    if mem[t[v[l + 1..]]][v[l]].IsPointer() {
      PointerStep(m, mem, t, v, l);
      AddTableWalk(m, mem, mem', t, p, i, g, v, l - 1);
    }
  }

  ghost predicate CanSetLeaf(m: Mode, mem: Frames, t: Tree, p: seq<Index>, i: Index, e: Entry) {
    && Wf(m, mem, t) && p in t
    && !mem[t[p]][i].IsPointer()
    && e.IsValid() && e.IsLeaf() && e.ppn < m.PpnLimit()
    && e.ppn % Span(LevelOf(m, p)) == 0
  }

  /** `mem'` is `mem` with the entry `i` of table `p` made the leaf `e`. */
  ghost predicate LeafSet(m: Mode, mem: Frames, mem': Frames, t: Tree, p: seq<Index>, i: Index, e: Entry)
    requires CanSetLeaf(m, mem, t, p, i, e)
  {
    && Ram(m, mem')
    && mem'[t[p]][i] == e
    && (forall q, j: Index :: q in t && !(q == p && j == i) ==> mem'[t[q]][j] == mem[t[q]][j])
  }

  lemma {:induction false} PutSetsLeaf(m: Mode, mem: Frames, t: Tree, p: seq<Index>, i: Index, e: Entry)
    requires CanSetLeaf(m, mem, t, p, i, e)
    ensures LeafSet(m, mem, Put(mem, t[p], i, e), t, p, i, e)
  {
    assert forall q :: q in t ==> Apart(t, p, q);
  }

  lemma {:induction false} SetLeaf(m: Mode, mem: Frames, mem': Frames, t: Tree, p: seq<Index>, i: Index, e: Entry)
    requires CanSetLeaf(m, mem, t, p, i, e) && LeafSet(m, mem, mem', t, p, i, e)
    ensures Wf(m, mem', t)
  {
    forall q | q in t && q != []
      ensures Linked(mem', t, q)
    {
      assert Linked(mem, t, q);
    }
    forall q, j: Index | q in t
      ensures EntryOk(m, t, q, j, mem'[t[q]][j])
    {
      assert EntryOk(m, t, q, j, mem[t[q]][j]);
    }
  }

  lemma {:induction false} SetLeafPlain(m: Mode, mem: Frames, mem': Frames, t: Tree, p: seq<Index>, i: Index, e: Entry)
    requires CanSetLeaf(m, mem, t, p, i, e) && LeafSet(m, mem, mem', t, p, i, e) && Plain(mem, t)
    ensures Plain(mem', t)
  {
    forall q {:trigger PlainLink(mem', t, q)} | q in t && q != []
      ensures PlainLink(mem', t, q)
    {
      assert PlainLink(mem, t, q);
    }
  }

  /** The digits of `v` from the level of `p` up lead to entry `i` of table `p`. */
  predicate Through(m: Mode, v: Vpn, p: seq<Index>, i: Index)
    requires |p| < |v| == m.Levels()
  {
    v[LevelOf(m, p)] == i && v[LevelOf(m, p) + 1..] == p
  }

  /** On the way to an entry of table `p` every entry is a pointer. */
  lemma {:induction false} OnTheWay(m: Mode, mem: Frames, t: Tree, p: seq<Index>, v: Vpn, l: nat)
    requires Wf(m, mem, t) && p in t && |v| == m.Levels() && LevelOf(m, p) < l < |v|
    requires v[LevelOf(m, p) + 1..] == p
    ensures v[l..] in t && v[l + 1..] in t && mem[t[v[l + 1..]]][v[l]].IsPointer()
  {
    var d := l - LevelOf(m, p) - 1;
    assert v[l..] == p[d..] && v[l + 1..] == p[d + 1..];
    SuffixClosed(m, mem, t, p, d);
    assert Linked(mem, t, v[l..]);
    assert v[l..][1..] == v[l + 1..];
  }

  /** After a leaf write, the addresses whose digits lead to the entry reach the new leaf ... */
  lemma {:induction false} SetLeafHit(m: Mode, mem: Frames, mem': Frames, t: Tree, p: seq<Index>, i: Index, e: Entry,
      v: Vpn, l: nat)
    requires CanSetLeaf(m, mem, t, p, i, e) && LeafSet(m, mem, mem', t, p, i, e)
    requires |v| == m.Levels() && LevelOf(m, p) <= l < |v| && Through(m, v, p, i) && v[l + 1..] in t
    ensures Walk(m, mem', t[v[l + 1..]], l, v) == Hit(t[p], LevelOf(m, p), e)
  {
    if LevelOf(m, p) < l {
      OnTheWay(m, mem, t, p, v, l);
      PointerStep(m, mem, t, v, l);
      SetLeafHit(m, mem, mem', t, p, i, e, v, l - 1);
    }
  }

  /** ... and every other walk is as before. */
  lemma {:induction false} SetLeafMiss(m: Mode, mem: Frames, mem': Frames, t: Tree, p: seq<Index>, i: Index, e: Entry,
      v: Vpn, l: nat)
    requires CanSetLeaf(m, mem, t, p, i, e) && LeafSet(m, mem, mem', t, p, i, e)
    requires l < |v| == m.Levels() && !Through(m, v, p, i) && v[l + 1..] in t
    ensures Walk(m, mem', t[v[l + 1..]], l, v) == Walk(m, mem, t[v[l + 1..]], l, v)
  {
    assert !(v[l + 1..] == p && v[l] == i);
    if mem[t[v[l + 1..]]][v[l]].IsPointer() {
      PointerStep(m, mem, t, v, l);
      SetLeafMiss(m, mem, mem', t, p, i, e, v, l - 1);
    }
  }

  lemma {:induction false} SetLeafWalk(m: Mode, mem: Frames, mem': Frames, t: Tree, p: seq<Index>, i: Index, e: Entry,
      v: Vpn)
    requires CanSetLeaf(m, mem, t, p, i, e) && LeafSet(m, mem, mem', t, p, i, e)
    requires |v| == m.Levels()
    ensures WalkRoot(m, mem', t[[]], v)
            == if Through(m, v, p, i) then Hit(t[p], LevelOf(m, p), e) else WalkRoot(m, mem, t[[]], v)
  {
    assert v[|v|..] == [];
    if Through(m, v, p, i) {
      SetLeafHit(m, mem, mem', t, p, i, e, v, |v| - 1);
    } else {
      SetLeafMiss(m, mem, mem', t, p, i, e, v, |v| - 1);
    }
  }
}
