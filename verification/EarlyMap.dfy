/** The early boot mapper: 2 MiB pages of an Sv39 tree, with tables from a small stack of frames. */
module EarlyMap {
  import opened Arith
  import opened Paging
  import opened Addr
  import opened Mapping
  import opened Ranges
  import opened Copy
  import opened Walker
  import opened Wrappers

  const EARLY_TABLES: nat := 128

  /** A root with second-level tables below it, whose leaves are 2 MiB pages with `flags`. */
  ghost predicate EarlyTree(mem: Frames, t: Tree, flags: Flags) {
    && Wf(Sv39, mem, t) && Maps(flags)
    && (forall p {:trigger p in t} :: p in t ==> |p| <= 1)
    && (forall i: Index {:trigger mem[t[[]]][i]} :: mem[t[[]]][i].IsValid() ==> mem[t[[]]][i].IsPointer())
    && (forall i, j: Index {:trigger mem[t[[i]]][j]} :: [i] in t && mem[t[[i]]][j].IsValid() ==>
      mem[t[[i]]][j].flags == flags + {VALID})
  }

  /** The early mapper: the root table and `EarlyPageTableAllocator`, which grows down from `ptr`. */
  class EarlyMapper {
    const ram: PhysMemory
    const root: nat
    const flags: Flags
    var ptr: nat
    var free: nat
    ghost var tree: Tree

    ghost predicate Valid()
      reads this, ram
    {
      && EarlyTree(ram.frames, tree, flags) && tree[[]] == root
      && ptr % 4096 == 0 && free * 4096 <= ptr <= Sv39.PpnLimit() * 4096
      && (forall p :: p in tree ==> !(ptr - free * 4096 <= tree[p] * 4096 < ptr))
      && free + |tree| == EARLY_TABLES + 1
    }

    constructor (ram: PhysMemory, root: nat, top: nat, flags: Flags)
      requires Ram(Sv39, ram.frames) && root < Sv39.PpnLimit() && ram.frames[root] == EmptyTable() && Maps(flags)
      requires top % 4096 == 0 && EARLY_TABLES * 4096 <= top <= Sv39.PpnLimit() * 4096
      requires !(top - EARLY_TABLES * 4096 <= root * 4096 < top)
      ensures Valid() && this.ram == ram && this.root == root && this.flags == flags && tree == map[[] := root]
      ensures ptr == top && free == 128
    {
      this.ram, this.root, this.flags, ptr, free, tree := ram, root, flags, top, EARLY_TABLES, map[[] := root];
      EmptyRoot(Sv39, St(ram.frames, Gfa(0, 0)), root);
    }

    /** `EarlyPageTableAllocator::next` */
    method NextTable() returns (g: Option<nat>)
      requires Valid()
      modifies this`ptr, this`free, ram
      ensures g.None? <==> old(free) == 0
      ensures g.None? ==> ptr == old(ptr) && free == old(free) && ram.frames == old(ram.frames)
      ensures g.Some? ==>
                && free == old(free) - 1 && ptr == old(ptr) - 4096 && g.value == ptr / 4096
                && ram.frames == old(ram.frames)[g.value := EmptyTable()]
    {
      if free == 0 {
        return None;
      }
      free := free - 1;
      ptr := ptr - 4096;
      ram.frames := ram.frames[ptr / 4096 := EmptyTable()];
      return Some(ptr / 4096);
    }

    /** Links a fresh second-level table for top-level index `i`; None is the panic. */
    method LinkSecondLevel(i: Index) returns (g: Option<nat>)
      requires Valid() && !ram.frames[root][i].IsValid()
      modifies this`ptr, this`free, this`tree, ram
      ensures g.Some? ==>
                && Valid() && [i] in tree && tree[[i]] == g.value && tree.Keys == old(tree.Keys) + {[i]}
                && SameWalks(Sv39, old(ram.frames), ram.frames, root)
      ensures g.None? ==> old(free) == 0 && [i] !in old(tree) && tree == old(tree)
    {
      ghost var mem := ram.frames;
      assert EntryOk(Sv39, tree, [], i, mem[root][i]);
      assert [i][1..] == [] && ([i] in tree ==> Linked(mem, tree, [i]));
      g := NextTable();
      if g.Some? {
        var pte := ram.frames[root][i].SetPpn(Sv39, g.value);
        LinkWrites(mem, root, i, g.value);
        ram.frames := Put(ram.frames, root, i, pte);
        ram.frames := Put(ram.frames, root, i, pte.(flags := pte.flags + {VALID}));
        EarlyLink(mem, tree, flags, i, g.value, ram.frames);
        tree := tree[[i] := g.value];
      }
    }

    /** The second-level table for top-level index `i`; None is the panic. */
    method SecondLevel(i: Index) returns (g: Option<nat>)
      requires Valid()
      modifies this`ptr, this`free, this`tree, ram
      ensures g.Some? ==>
                && Valid() && [i] in tree && tree[[i]] == g.value && tree.Keys == old(tree.Keys) + {[i]}
                && SameWalks(Sv39, old(ram.frames), ram.frames, root)
      ensures g.None? ==> old(free) == 0 && [i] !in old(tree) && tree == old(tree)
    {
      var pte := ram.frames[root][i];
      if pte.IsValid() {
        assert EntryOk(Sv39, tree, [], i, pte) && [i] + [] == [i];
        assert Linked(ram.frames, tree, [i]) && [i][1..] == [];
        return Some(pte.ppn);
      }
      g := LinkSecondLevel(i);
    }

    /** `create_l1_page_mapping` */
    method Create(va: nat, pa: nat) returns (ok: bool)
      requires Valid() && pa % Size(1) == 0 && pa / 4096 < Sv39.PpnLimit()
      modifies this`ptr, this`free, this`tree, ram
      ensures !ok ==> old(free) == 0 && [VpnOf(Sv39, va)[2]] !in old(tree) && tree == old(tree)
      ensures ok ==>
                && Valid() && tree.Keys == old(tree.Keys) + {[VpnOf(Sv39, va)[2]]}
                && RangeRedirected(Sv39, old(ram.frames), ram.frames, root, Page(Sv39, va, 1), 1, 1, pa / 4096, flags)
    {
      var v := VpnOf(Sv39, va);
      var table := SecondLevel(v[2]);
      if table.None? {
        return false;
      }
      ghost var mem := ram.frames;
      var pte := ram.frames[table.value][v[1]].SetPpn(Sv39, pa / 4096);
      PutTwice(mem, table.value, v[1], pte, pte.(flags := pte.flags + (flags + {VALID})));
      ram.frames := Put(ram.frames, table.value, v[1], pte);
      ram.frames := Put(ram.frames, table.value, v[1], pte.(flags := pte.flags + (flags + {VALID})));
      EarlyPut(old(ram.frames), mem, tree, flags, va, pa, ram.frames);
      return true;
    }

    /** The addresses of 2 MiB page `i` of a range. */
    method NthAddresses(va: nat, pa: nat, i: nat, ghost n: nat) returns (v: nat, p: nat)
      requires i < n && Canonical(Sv39, va) && RangeOk(Sv39, va, pa, n, 1)
      ensures Page(Sv39, v, 1) == Page(Sv39, va, 1) + i && VpnOf(Sv39, v)[2] == (Page(Sv39, va, 1) + i) / 512
      ensures p % Size(1) == 0 && p / 4096 == pa / 4096 + Times(i, Span(1)) < Sv39.PpnLimit()
    {
      VirtAddOk(Sv39, va, i, 1);
      NthPage(Sv39, va, pa, i, n, 1);
      ModAdd(pa, i, 0, Size(1));
      v, p := VirtAdd(Sv39, va, Times(i, Size(1))), pa + Times(i, Size(1));
      PageNoOf(Sv39, v, 1);
      PageNoOf(Sv39, v, 2);
      TopDigit(v);
    }

    /** One turn of the loop of `MapRange`, which started with memory `mem` and tables `before`. */
    method MapNth(pa: nat, va: nat, i: nat, ghost n: nat, ghost mem: Frames, ghost first: nat,
        ghost before: Tree) returns (ok: bool)
      requires Valid() && i < n && Canonical(Sv39, va) && RangeOk(Sv39, va, pa, n, 1) && first == Page(Sv39, va, 1)
      requires Ram(Sv39, mem) && RangeRedirected(Sv39, mem, ram.frames, root, first, i, 1, pa / 4096, flags)
      requires TablesFor(before, tree, first, i)
      modifies this`ptr, this`free, this`tree, ram
      ensures !ok ==> old(free) == 0 && (first + i) / 512 < 512 && [(first + i) / 512] !in old(tree)
      ensures ok ==>
                && Valid() && TablesFor(before, tree, first, i + 1)
                && RangeRedirected(Sv39, mem, ram.frames, root, first, i + 1, 1, pa / 4096, flags)
    {
      var v, p := NthAddresses(va, pa, i, n);
      ghost var mem1, now := ram.frames, tree;
      ok := Create(v, p);
      if ok {
        TablesNext(before, now, tree, first, i, VpnOf(Sv39, v)[2]);
        RedirectJoin(Sv39, mem, mem1, ram.frames, root, first, i, 1, pa / 4096, flags);
      }
    }

    /** `early_map_range`: maps `size` bytes; false is the panic when the early tables run out, which happens
        exactly when the pages touch more new top-level indices than there are tables left. */
    method MapRange(pa: nat, va: nat, size: nat) returns (ok: bool)
      requires Valid() && Canonical(Sv39, va) && va % Size(1) == 0 && RangeOk(Sv39, va, pa, PagesIn(size, 1), 1)
      modifies this`ptr, this`free, this`tree, ram
      ensures ok <==> |NewIndices(old(tree), Page(Sv39, va, 1), PagesIn(size, 1))| <= old(free)
      ensures ok ==>
                && Valid() && TablesFor(old(tree), tree, Page(Sv39, va, 1), PagesIn(size, 1))
                && RangeRedirected(Sv39, old(ram.frames), ram.frames, root, Page(Sv39, va, 1), PagesIn(size, 1), 1,
                  pa / 4096, flags)
    {
      var n := PagesIn(size, 1);
      ghost var mem, first, before := ram.frames, Page(Sv39, va, 1), tree;
      NothingRedirected(mem, root, first, pa / 4096, flags);
      ok := true;
      var i := 0;
      while i < n && ok
        invariant i <= n
        invariant ok ==> Valid() && TablesFor(before, tree, first, i)
        invariant ok ==> RangeRedirected(Sv39, mem, ram.frames, root, first, i, 1, pa / 4096, flags)
        invariant !ok ==> |NewIndices(before, first, n)| > old(free)
        decreases n - i
      {
        TablesCounted(before, tree, first, i);
        ghost var now := tree;
        ok := MapNth(pa, va, i, n, mem, first, before);
        if !ok {
          OutOfTables(before, now, first, i, n);
        }
        i := i + 1;
      }
      if ok {
        TablesCounted(before, tree, first, n);
      }
    }
  }

  /** The top-level indices that the `n` pages of level 1 from page `first` on touch and `t` has no table for. */
  function NewIndices(t: Tree, first: nat, n: nat): set<Index> {
    set j: Index | 0 <= j < 512 && [j] !in t && Touches(first, n, j)
  }

  predicate Touches(first: nat, n: nat, j: Index) {
    n > 0 && first / 512 <= j <= (first + n - 1) / 512
  }

  /** Keys of length 1 are counted by their digits. */
  lemma {:induction false} KeyCount(b: set<seq<Index>>, k: set<seq<Index>>, s: set<Index>)
    requires b <= k && (forall p {:trigger p in k} :: p in k && p !in b ==> |p| == 1)
    requires forall j: Index {:trigger j in s} {:trigger [j] in k} :: j in s <==> [j] in k && [j] !in b
    ensures |k| == |b| + |s|
    decreases |s|
  {
    assert forall p: seq<Index> {:trigger p in k} :: |p| == 1 ==> p == [p[0]];
    if s == {} {
      assert k == b;
    } else {
      var j :| j in s;
      KeyCount(b, k - {[j]}, s - {j});
    }
  }

  lemma {:induction false} TablesNext(before: Tree, now: Tree, t: Tree, first: nat, i: nat, top: Index)
    requires TablesFor(before, now, first, i) && t.Keys == now.Keys + {[top]} && top == (first + i) / 512
    ensures TablesFor(before, t, first, i + 1)
  {
    forall j: Index {:trigger [j] in t}
      ensures [j] in t <==> [j] in before || Touches(first, i + 1, j)
    {
      assert [j] in t <==> [j] in now || [j] == [top];
      assert [j] == [top] <==> j == top by {
        assert [j][0] == j && [top][0] == top;
      }
    }
  }

  /** One table for each new index. */
  lemma {:induction false} TablesCounted(before: Tree, t: Tree, first: nat, n: nat)
    requires TablesFor(before, t, first, n) && [] in before && [] in t
    requires (forall p {:trigger p in before} :: p in before ==> |p| <= 1)
    requires (forall p {:trigger p in t} :: p in t ==> |p| <= 1)
    ensures |t| == |before| + |NewIndices(before, first, n)|
  {
    Singles(before, t);
    KeyCount(before.Keys, t.Keys, NewIndices(before, first, n));
  }

  lemma {:induction false} Singles(before: Tree, t: Tree)
    requires [] in t && (forall p {:trigger p in before} :: p in before ==> |p| <= 1)
    requires forall j: Index {:trigger [j] in t} :: [j] in before ==> [j] in t
    ensures before.Keys <= t.Keys
  {
    forall p | p in before
      ensures p in t
    {
      assert p == [] || p == [p[0]];
      if p != [] {
        assert [p[0]] in t;
      }
    }
  }

  lemma {:induction false} OutOfTables(before: Tree, now: Tree, first: nat, i: nat, n: nat)
    requires TablesFor(before, now, first, i) && i < n && (first + i) / 512 < 512 && [(first + i) / 512] !in now
    ensures |NewIndices(before, first, n)| > |NewIndices(before, first, i)|
  {
    var j: Index := (first + i) / 512;
    var few, all := NewIndices(before, first, i), NewIndices(before, first, n);
    assert [j] in now <==> [j] in before || Touches(first, i, j);
    assert j !in few && j in all && few + {j} <= all;
    Smaller(few + {j}, all);
  }

  lemma {:induction false} Smaller(a: set<Index>, b: set<Index>)
    requires a <= b
    ensures |a| <= |b|
  {
    assert b == a + (b - a);
  }

  /** The tables of `t` are those of `before` and one for each top-level index that the `n` pages of
      level 1 from page `first` on touch. */
  ghost predicate TablesFor(before: Tree, t: Tree, first: nat, n: nat) {
    forall j: Index {:trigger [j] in t} :: [j] in t <==> [j] in before || Touches(first, n, j)
  }

  lemma {:induction false} TopDigit(a: nat)
    ensures VpnOf(Sv39, a)[2] == Page(Sv39, a, 1) / 512 && Page(Sv39, a, 1) / 512 < 512
  {
    PageDigits(Sv39, a, 2);
    Sizes();
    assert Page(Sv39, a, 2) == Page(Sv39, a, 1) / 512;
    assert VpnOf(Sv39, a)[2..][0] == VpnOf(Sv39, a)[2];
  }

  lemma {:induction false} NothingRedirected(mem: Frames, root: nat, first: nat, ppn: nat, flags: Flags)
    requires Ram(Sv39, mem) && root < Sv39.PpnLimit()
    ensures RangeRedirected(Sv39, mem, mem, root, first, 0, 1, ppn, flags)
  {
  }

  // ---------- the early mapper refines map_range ----------

  /** The tree at `r` of `mem` and the tree at `r'` of `mem'` lead every address to the same leaf. */
  ghost predicate Agree(mem: Frames, r: nat, mem': Frames, r': nat)
    requires Ram(Sv39, mem) && Ram(Sv39, mem') && r < Sv39.PpnLimit() && r' < Sv39.PpnLimit()
  {
    forall w: Vpn {:trigger WalkRoot(Sv39, mem, r, w)} :: |w| == 3 ==>
      LeafOf(WalkRoot(Sv39, mem, r, w)) == LeafOf(WalkRoot(Sv39, mem', r', w))
  }

  lemma {:induction false} AgreeAfterRange(e0: Frames, e1: Frames, r: nat, s0: Frames, s1: Frames, r': nat, first: nat,
      n: nat, ppn: nat, flags: Flags)
    requires Ram(Sv39, e0) && Ram(Sv39, e1) && Ram(Sv39, s0) && Ram(Sv39, s1) && r < Sv39.PpnLimit()
    requires r' < Sv39.PpnLimit()
    requires Agree(e0, r, s0, r')
    requires RangeRedirected(Sv39, e0, e1, r, first, n, 1, ppn, flags)
    requires RangeRedirected(Sv39, s0, s1, r', first, n, 1, ppn, flags)
    ensures Agree(e1, r, s1, r')
  {
    forall w: Vpn {:trigger WalkRoot(Sv39, e1, r, w)} | |w| == 3
      ensures LeafOf(WalkRoot(Sv39, e1, r, w)) == LeafOf(WalkRoot(Sv39, s1, r', w))
    {
      assert WalkRoot(Sv39, e0, r, w) == WalkRoot(Sv39, e0, r, w);
      assert Redirect(Sv39, e0, e1, r, w, first, n, 1, ppn, flags);
      assert Redirect(Sv39, s0, s1, r', w, first, n, 1, ppn, flags);
    }
  }

  /** All leaves of an early tree are 2 MiB pages with the same flags. */
  lemma {:induction false} EarlyHits(mem: Frames, t: Tree, flags: Flags, w: Vpn)
    requires EarlyTree(mem, t, flags) && |w| == 3
    ensures var h := WalkRoot(Sv39, mem, t[[]], w); h.Hit? ==> h.level == 1 && h.entry.flags == flags + {VALID}
  {
    var e := mem[t[[]]][w[2]];
    assert w[3..] == [] && w[2..] == [w[2]];
    if e.IsValid() {
      PointerStep(Sv39, mem, t, w, 2);
      var d := mem[t[[w[2]]]][w[1]];
      assert d.IsValid() ==> d.flags == flags + {VALID};
    }
  }

  /** So a tree of the same shape that agrees with it can take any 2 MiB page with those flags. */
  lemma {:induction false} AgreeReady(mem: Frames, et: Tree, mem': Frames, t: Tree, flags: Flags, first: nat, n: nat)
    requires EarlyTree(mem, et, flags) && Wf(Sv39, mem', t) && (forall p {:trigger p in t} :: p in t ==> |p| <= 1)
    requires Agree(mem, et[[]], mem', t[[]])
    ensures RangeClear(Sv39, mem', t[[]], first, n, 1) && RangeFree(Sv39, mem', t, first, n, 1, flags)
  {
    forall w: Vpn {:trigger WalkRoot(Sv39, mem', t[[]], w)} | |w| == 3
      ensures var h := WalkRoot(Sv39, mem', t[[]], w); h.Hit? ==> h.level == 1 && h.entry.flags == flags + {VALID}
    {
      EarlyHits(mem, et, flags, w);
      assert LeafOf(WalkRoot(Sv39, mem, et[[]], w)) == LeafOf(WalkRoot(Sv39, mem', t[[]], w));
    }
    forall w: Vpn {:trigger Blocked(Sv39, mem', t, w, 1, flags)} | |w| == 3 && first <= PageNo(w, 1) < first + n
      ensures !Blocked(Sv39, mem', t, w, 1, flags)
    {
      assert |w[1..]| == 2;
    }
  }

  /** A call of either mapper. */
  datatype Call = Call(pa: nat, va: nat, size: nat) {
    function First(): nat { Page(Sv39, va, 1) }

    function Pages(): nat { PagesIn(size, 1) }

    /** The asserts of the source, and a range that fits. */
    predicate Ok() { Canonical(Sv39, va) && va % Size(1) == 0 && RangeOk(Sv39, va, pa, Pages(), 1) }
  }

  /** One of the calls touches top-level index `j`. */
  predicate TouchedBy(calls: seq<Call>, j: Index) {
    exists i {:trigger calls[i]} :: 0 <= i < |calls| && Touches(calls[i].First(), calls[i].Pages(), j)
  }

  /** The indices that the calls touch and `t` has no table for. */
  function NewOver(t: Tree, calls: seq<Call>): set<Index> {
    set j: Index | 0 <= j < 512 && [j] !in t && TouchedBy(calls, j)
  }

  ghost predicate TablesOver(before: Tree, t: Tree, calls: seq<Call>) {
    forall j: Index {:trigger [j] in t} :: [j] in t <==> [j] in before || TouchedBy(calls, j)
  }

  lemma {:induction false} TouchedMore(calls: seq<Call>, k: nat, j: Index)
    requires k < |calls|
    ensures TouchedBy(calls[..k + 1], j) <==> TouchedBy(calls[..k], j) || Touches(calls[k].First(), calls[k].Pages(), j)
  {
    assert calls[..k + 1] == calls[..k] + [calls[k]];
    if TouchedBy(calls[..k], j) {
      var i :| 0 <= i < k && Touches(calls[..k][i].First(), calls[..k][i].Pages(), j);
      assert calls[..k + 1][i] == calls[..k][i];
    }
    assert calls[..k + 1][k] == calls[k];
    if TouchedBy(calls[..k + 1], j) {
      var i :| 0 <= i < k + 1 && Touches(calls[..k + 1][i].First(), calls[..k + 1][i].Pages(), j);
      assert i < k ==> calls[..k][i] == calls[..k + 1][i];
    }
  }

  lemma {:induction false} TablesMore(before: Tree, t: Tree, t': Tree, calls: seq<Call>, k: nat)
    requires k < |calls| && TablesOver(before, t, calls[..k]) && TablesFor(t, t', calls[k].First(), calls[k].Pages())
    ensures TablesOver(before, t', calls[..k + 1])
  {
    forall j: Index {:trigger [j] in t'}
      ensures [j] in t' <==> [j] in before || TouchedBy(calls[..k + 1], j)
    {
      TouchedMore(calls, k, j);
      assert [j] in t <==> [j] in before || TouchedBy(calls[..k], j);
    }
  }

  /** A call that wants more tables than are left makes the calls so far want more than there were. */
  lemma {:induction false} WantsMore(before: Tree, t: Tree, calls: seq<Call>, k: nat)
    requires k < |calls| && TablesOver(before, t, calls[..k])
    ensures |NewOver(before, calls[..k + 1])|
        == |NewOver(before, calls[..k])| + |NewIndices(t, calls[k].First(), calls[k].Pages())|
  {
    var a, b := NewOver(before, calls[..k]), NewIndices(t, calls[k].First(), calls[k].Pages());
    forall j: Index
      ensures j in NewOver(before, calls[..k + 1]) <==> j in a || j in b
      ensures !(j in a && j in b)
    {
      TouchedMore(calls, k, j);
      assert [j] in t <==> [j] in before || TouchedBy(calls[..k], j);
    }
    assert NewOver(before, calls[..k + 1]) == a + b && a !! b;
  }

  lemma {:induction false} OverCounted(before: Tree, t: Tree, calls: seq<Call>)
    requires TablesOver(before, t, calls) && [] in before && [] in t
    requires (forall p {:trigger p in before} :: p in before ==> |p| <= 1)
    requires (forall p {:trigger p in t} :: p in t ==> |p| <= 1)
    ensures |t| == |before| + |NewOver(before, calls)|
  {
    Singles(before, t);
    KeyCount(before.Keys, t.Keys, NewOver(before, calls));
  }

  /** `map_range` with 2 MiB pages adds the tables the early mapper would. */
  lemma {:induction false} RealTables(s: St, t: Tree, s': St, t': Tree, first: nat, n: nat, ppn: nat, flags: Flags)
    requires RangeEffect(Sv39, s, t, s', t', Ok, first, n, n, 1, ppn, flags) && first + n <= 0x4_0000
    requires forall p {:trigger p in t} :: p in t ==> |p| <= 1
    ensures TablesFor(t, t', first, n) && (forall p {:trigger p in t'} :: p in t' ==> |p| <= 1)
  {
    forall p {:trigger p in t'} | p in t'
      ensures |p| <= 1
    {
      assert p in t || Leads(Sv39, p, first, n, 1);
    }
    forall j: Index {:trigger [j] in t'}
      ensures [j] in t' <==> [j] in t || Touches(first, n, j)
    {
      if [j] in t' && [j] !in t {
        TopLed(j, first, n);
      } else if Touches(first, n, j) {
        var w := TopPage(j, first, n);
        assert HasTable(t', w, 1) && w[2..] == [j];
      }
    }
  }

  lemma {:induction false} TopLed(j: Index, first: nat, n: nat)
    requires Leads(Sv39, [j], first, n, 1)
    ensures Touches(first, n, j)
  {
    var w: Vpn :| |w| == 3 && first <= PageNo(w, 1) < first + n && Suffix(w, [j], 1);
    assert w[2..] == [j] && w[1..][1..] == w[2..];
    assert Value(w[2..], 1) == w[2] + 512 * Value(w[2..][1..], 0);
  }

  /** Some touched page lies below index `j`. */
  lemma {:induction false} TopPage(j: Index, first: nat, n: nat) returns (w: Vpn)
    requires Touches(first, n, j) && first + n <= 0x4_0000
    ensures |w| == 3 && first <= PageNo(w, 1) < first + n && w[2] == j
  {
    var page := if first / 512 == j then first else 512 * j;
    w := [0, page % 512, j];
    assert w[1..] == [page % 512, j] && w[1..][1..] == [j];
    assert Value([j], 1) == j + 512 * Value([j][1..], 0);
  }

  /** Both mappers, from trees that agree and have the same tables, through the same calls: as long as
      neither runs out of tables they agree, and each used one table per new top-level index.  The early
      mapper stops only when the calls so far touch more new indices than it had tables, the other only
      when the frames have run out. */
  method Drive(e: EarlyMapper, w: PageTableWalker, gfa: BumpFrameAllocator, calls: seq<Call>, ghost t: Tree)
    returns (done: nat, ghost t': Tree)
    requires e.Valid() && w.m == Sv39 && w.Valid(gfa, t) && e.ram != w.ram && t.Keys == e.tree.Keys
    requires Agree(e.ram.frames, e.root, w.ram.frames, w.rpt)
    requires forall i {:trigger calls[i]} :: 0 <= i < |calls| ==> calls[i].Ok()
    modifies e`ptr, e`free, e`tree, e.ram, w.ram, gfa
    ensures done <= |calls|
    ensures done == |calls| ==>
              && e.Valid() && w.Valid(gfa, t') && Agree(e.ram.frames, e.root, w.ram.frames, w.rpt)
              && e.free == old(e.free) - |NewOver(t, calls)| && gfa.ptr == old(gfa.ptr) + 4096 * |NewOver(t, calls)|
    ensures done < |calls| ==> |NewOver(t, calls[..done + 1])| > old(e.free) || Exhausted(gfa.Gfa(), 1)
  {
    t' := t;
    ghost var before := t;
    for k := 0 to |calls|
      invariant e.Valid() && w.Valid(gfa, t') && t'.Keys == e.tree.Keys && TablesOver(before, t', calls[..k])
      invariant gfa.ptr + 4096 * |before| == old(gfa.ptr) + 4096 * |t'|
      invariant Agree(e.ram.frames, e.root, w.ram.frames, w.rpt)
    {
      ghost var now := t';
      OverCounted(before, now, calls[..k]);
      WantsMore(before, now, calls, k);
      var ok;
      ok, t' := Step(e, w, gfa, calls[k], now);
      if !ok {
        return k, t';
      }
      TablesMore(before, now, t', calls, k);
    }
    assert calls[..|calls|] == calls;
    OverCounted(before, t', calls);
    done := |calls|;
  }

  /** One call of both mappers. */
  method Step(e: EarlyMapper, w: PageTableWalker, gfa: BumpFrameAllocator, c: Call, ghost t: Tree)
    returns (ok: bool, ghost t': Tree)
    requires e.Valid() && w.m == Sv39 && w.Valid(gfa, t) && e.ram != w.ram && t.Keys == e.tree.Keys && c.Ok()
    requires Agree(e.ram.frames, e.root, w.ram.frames, w.rpt)
    modifies e`ptr, e`free, e`tree, e.ram, w.ram, gfa
    ensures !ok ==> |NewIndices(t, c.First(), c.Pages())| > old(e.free) || Exhausted(gfa.Gfa(), 1)
    ensures ok ==>
              && e.Valid() && w.Valid(gfa, t') && t'.Keys == e.tree.Keys && TablesFor(t, t', c.First(), c.Pages())
              && gfa.ptr + 4096 * |t| == old(gfa.ptr) + 4096 * |t'| && Agree(e.ram.frames, e.root, w.ram.frames, w.rpt)
  {
    ghost var em, et, s, first, n := e.ram.frames, e.tree, w.State(gfa), c.First(), c.Pages();
    t' := t;
    AgreeReady(em, et, s.mem, t, e.flags, first, n);
    SameIndices(et, t, first, n);
    ok := e.MapRange(c.pa, c.va, c.size);
    if !ok {
      return;
    }
    ghost var k;
    var r;
    r, t', k := w.MapRangeInTree(c.va, c.pa, c.pa + c.size, Mb, e.flags, gfa, t);
    if r.Err? {
      FailsForFrames(Sv39, s, t, w.State(gfa), t', r.error, first, n, k, 1, c.pa / 4096, e.flags);
      return false, t';
    }
    AgreeAfterRange(em, e.ram.frames, e.root, s.mem, w.ram.frames, w.rpt, first, n, c.pa / 4096, e.flags);
    RealTables(s, t, w.State(gfa), t', first, n, c.pa / 4096, e.flags);
    SameKeys(et, e.tree, t, t', first, n);
  }

  lemma {:induction false} SameIndices(a: Tree, b: Tree, first: nat, n: nat)
    requires a.Keys == b.Keys
    ensures NewIndices(a, first, n) == NewIndices(b, first, n)
  {
    assert forall j: Index :: [j] in a <==> [j] in a.Keys;
    assert forall j: Index :: [j] in b <==> [j] in b.Keys;
  }

  lemma {:induction false} SameKeys(a: Tree, a': Tree, b: Tree, b': Tree, first: nat, n: nat)
    requires a.Keys == b.Keys && TablesFor(a, a', first, n) && TablesFor(b, b', first, n) && [] in a' && [] in b'
    requires (forall p {:trigger p in a'} :: p in a' ==> |p| <= 1)
    requires (forall p {:trigger p in b'} :: p in b' ==> |p| <= 1)
    ensures a'.Keys == b'.Keys
  {
    assert forall j: Index {:trigger [j] in a} :: [j] in a <==> [j] in b by {
      assert forall p {:trigger p in a} :: p in a <==> p in a.Keys;
    }
    forall j: Index
      ensures [j] in a' <==> [j] in b'
    {
      assert [j] in a <==> [j] in b;
    }
    Singles(a', b');
    Singles(b', a');
  }

  lemma {:induction false} AgreeTranslates(mem: Frames, r: nat, mem': Frames, r': nat, x: nat)
    requires Ram(Sv39, mem) && Ram(Sv39, mem') && r < Sv39.PpnLimit() && r' < Sv39.PpnLimit() && Agree(mem, r, mem', r')
    ensures VirtToPhys(Sv39, mem, r, x) == VirtToPhys(Sv39, mem', r', x)
  {
    assert WalkRoot(Sv39, mem, r, VpnOf(Sv39, x)) == WalkRoot(Sv39, mem, r, VpnOf(Sv39, x));
  }

  /** Setting the frame number and then the VALID bit of an empty entry. */
  lemma {:induction false} LinkWrites(mem: Frames, root: nat, i: Index, g: nat)
    requires root in mem && |mem[root]| == 512 && mem[root][i] == EMPTY && g != root && g < Sv39.PpnLimit()
    ensures var mem1, e := mem[g := EmptyTable()], EMPTY.SetPpn(Sv39, g);
            mem1[root][i] == EMPTY
            && Put(Put(mem1, root, i, e), root, i, e.(flags := e.flags + {VALID}))
              == Put(mem1, root, i, Entry(g, {VALID}))
  {
    assert {} + {VALID} == {VALID};
    PutTwice(mem[g := EmptyTable()], root, i, EMPTY.SetPpn(Sv39, g), Entry(g, {VALID}));
  }

  /** Linking a fresh second-level table below the root keeps the tree and all its walks. */
  lemma {:induction false} EarlyLink(mem: Frames, t: Tree, flags: Flags, i: Index, g: nat, mem': Frames)
    requires EarlyTree(mem, t, flags) && !mem[t[[]]][i].IsValid() && g < Sv39.PpnLimit()
    requires (forall p :: p in t ==> t[p] != g)
    requires mem' == Put(mem[g := EmptyTable()], t[[]], i, Entry(g, {VALID}))
    ensures [i] !in t && EarlyTree(mem', t[[i] := g], flags) && SameWalks(Sv39, mem, mem', t[[]])
  {
    assert mem' == WithTable(mem, t, [], i, g);
    WithTableAdds(Sv39, mem, t, [], i, g);
    AddTable(Sv39, mem, mem', t, [], i, g);
    assert [i] + [] == [i];
    forall w: Vpn {:trigger WalkRoot(Sv39, mem', t[[]], w)} | |w| == 3
      ensures WalkRoot(Sv39, mem', t[[]], w) == WalkRoot(Sv39, mem, t[[]], w)
    {
      assert w[3..] == [];
      AddTableWalk(Sv39, mem, mem', t, [], i, g, w, 2);
    }
  }

  /** Writing a 2 MiB leaf, or writing it again with the same flags. */
  lemma {:induction false} EarlyPut(mem0: Frames, mem: Frames, t: Tree, flags: Flags, va: nat, pa: nat, mem': Frames)
    requires EarlyTree(mem, t, flags) && pa % Size(1) == 0 && pa / 4096 < Sv39.PpnLimit()
    requires Ram(Sv39, mem0) && SameWalks(Sv39, mem0, mem, t[[]])
    requires var v := VpnOf(Sv39, va);
             && [v[2]] in t
             && var e := mem[t[[v[2]]]][v[1]];
                mem' == Put(mem, t[[v[2]]], v[1], Entry(pa / 4096, e.flags + (flags + {VALID})))
    ensures EarlyTree(mem', t, flags)
    ensures RangeRedirected(Sv39, mem0, mem', t[[]], Page(Sv39, va, 1), 1, 1, pa / 4096, flags)
  {
    var v := VpnOf(Sv39, va);
    var s, p, f := St(mem, Gfa(0, 0)), v[2..], t[[v[2]]];
    var e := Entry(pa / 4096, flags + {VALID});
    assert p == [v[2]];
    assert EntryOk(Sv39, t, p, v[1], mem[f][v[1]]);
    assert mem[f][v[1]].flags + (flags + {VALID}) == flags + {VALID};
    AlignedFrame(pa, 1);
    PutRedirects(Sv39, s, t, v, 1, e);
    assert forall q :: q in t ==> Apart(t, p, q);
    RedirectsOne(Sv39, mem, mem', t[[]], v, 1, f, pa / 4096, flags);
    PageNoOf(Sv39, va, 1);
    forall w: Vpn {:trigger WalkRoot(Sv39, mem', t[[]], w)} | |w| == 3
      ensures Redirect(Sv39, mem0, mem', t[[]], w, Page(Sv39, va, 1), 1, 1, pa / 4096, flags)
    {
      assert Redirect(Sv39, mem, mem', t[[]], w, PageNo(v, 1), 1, 1, pa / 4096, flags);
      assert WalkRoot(Sv39, mem, t[[]], w) == WalkRoot(Sv39, mem0, t[[]], w);
    }
  }
}
