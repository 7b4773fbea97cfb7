/** `copy_kernel_mappings`: the deep copy of a kernel tree into a fresh user tree. */
module Copy {
  import opened Arith
  import opened Paging
  import opened Addr
  import opened Mapping
  import opened Wrappers

  /** The walk that stops at entries with the USER bit: what a kernel address maps to for the copy. */
  function KernelWalk(m: Mode, mem: Frames, f: nat, l: nat, v: Vpn): (h: Hit)
    requires Ram(m, mem) && f < m.PpnLimit() && l < |v|
    ensures h.Hit? ==> h.level <= l
    decreases l
  {
    var e := mem[f][v[l]];
    if !e.IsValid() || USER in e.flags then Miss
    else if e.IsLeaf() then Hit(f, l, e)
    else if l == 0 then Miss
    else KernelWalk(m, mem, e.ppn, l - 1, v)
  }

  /** An entry on the way of `v` has the USER bit. */
  predicate UserOnPath(m: Mode, mem: Frames, f: nat, l: nat, v: Vpn)
    requires Ram(m, mem) && f < m.PpnLimit() && l < |v|
    decreases l
  {
    var e := mem[f][v[l]];
    e.IsValid() && (USER in e.flags || (!e.IsLeaf() && l > 0 && UserOnPath(m, mem, e.ppn, l - 1, v)))
  }

  /** On every memory the filtered walk is the walk, unless an entry on the way has the USER bit. */
  lemma {:induction false} KernelWalkIs(m: Mode, mem: Frames, f: nat, l: nat, v: Vpn)
    requires Ram(m, mem) && f < m.PpnLimit() && l < |v|
    ensures KernelWalk(m, mem, f, l, v) == if UserOnPath(m, mem, f, l, v) then Miss else Walk(m, mem, f, l, v)
    decreases l
  {
    var e := mem[f][v[l]];
    if e.IsPointer() && l > 0 {
      KernelWalkIs(m, mem, e.ppn, l - 1, v);
    }
  }

  /** In a tree with plain pointers only the leaf itself can have the USER bit. */
  lemma {:induction false} PlainPath(m: Mode, mem: Frames, t: Tree, v: Vpn, l: nat)
    requires Wf(m, mem, t) && Plain(mem, t) && l < |v| == m.Levels() && v[l + 1..] in t
    ensures var h := Walk(m, mem, t[v[l + 1..]], l, v);
            UserOnPath(m, mem, t[v[l + 1..]], l, v) <==> h.Hit? && USER in h.entry.flags
  {
    if mem[t[v[l + 1..]]][v[l]].IsPointer() {
      PointerStep(m, mem, t, v, l);
      assert v[l..][1..] == v[l + 1..] && v[l..][0] == v[l];
      assert PlainLink(mem, t, v[l..]);
      PlainPath(m, mem, t, v, l - 1);
    }
  }

  /** Level and value of the leaf, without the frame of the table that holds it. */
  function LeafOf(h: Hit): Option<(nat, Entry)> {
    if h.Hit? then Some((h.level, h.entry)) else None
  }

  /** The copy has reached page `bound` of level `l`: below it the user tree `u` maps what the kernel
      tree `k` maps for the kernel, above it nothing. */
  ghost predicate CopiedUpTo(m: Mode, kmem: Frames, mem: Frames, k: nat, u: nat, l: nat, bound: nat)
    requires Ram(m, kmem) && Ram(m, mem) && k < m.PpnLimit() && u < m.PpnLimit() && l < m.Levels()
  {
    forall w: Vpn {:trigger CopiedAt(m, kmem, mem, k, u, l, bound, w)} :: |w| == m.Levels() ==>
      CopiedAt(m, kmem, mem, k, u, l, bound, w)
  }

  ghost predicate CopiedAt(m: Mode, kmem: Frames, mem: Frames, k: nat, u: nat, l: nat, bound: nat, w: Vpn)
    requires Ram(m, kmem) && Ram(m, mem) && k < m.PpnLimit() && u < m.PpnLimit() && l < |w| == m.Levels()
  {
    LeafOf(WalkRoot(m, mem, u, w))
    == if PageNo(w, l) < bound then LeafOf(KernelWalk(m, kmem, k, m.Levels() - 1, w)) else None
  }

  ghost predicate Separate(t: Tree, u: Tree) {
    forall p {:trigger Owned(u, t[p])} :: p in t ==> !Owned(u, t[p])
  }

  /** The kernel tree keeps its frames, which the user tree and the allocator stay off. */
  ghost predicate KernelKept(m: Mode, s0: St, kt: Tree, s: St, ut: Tree)
    requires StOk(m, s0) && StOk(m, s)
  {
    && Wf(m, s0.mem, kt) && Fresh(s.gfa, kt) && Separate(kt, ut)
    && (forall p {:trigger kt[p]} :: p in kt ==> s.mem[kt[p]] == s0.mem[kt[p]])
  }

  /** A copy under way: it started in state `s0` with the user tree `ut0`. */
  ghost predicate Copying(m: Mode, s0: St, kt: Tree, ut0: Tree, s: St, ut: Tree, l: nat, bound: nat) {
    && l < m.Levels()
    && Kept(m, s0, ut0, s, ut)
    && KernelKept(m, s0, kt, s, ut)
    && (forall q :: q in ut ==> q in kt)
    && CopiedUpTo(m, s0.mem, s.mem, kt[[]], ut[[]], l, bound)
  }

  lemma {:induction false} PageNoDown(w: Vpn, l: nat, bound: nat)
    requires 0 < l < |w|
    ensures PageNo(w, l - 1) < 512 * bound <==> PageNo(w, l) < bound
  {
    assert w[l - 1..][1..] == w[l..];
  }

  /** Page `bound` of level `l` begins where page `512 * bound` of level `l - 1` does. */
  lemma {:induction false} CopyLevels(m: Mode, s0: St, kt: Tree, ut0: Tree, s: St, ut: Tree, l: nat, bound: nat)
    requires 0 < l < m.Levels()
    ensures Copying(m, s0, kt, ut0, s, ut, l, bound) <==> Copying(m, s0, kt, ut0, s, ut, l - 1, 512 * bound)
  {
    if Copying(m, s0, kt, ut0, s, ut, l, bound) {
      forall w: Vpn {:trigger CopiedAt(m, s0.mem, s.mem, kt[[]], ut[[]], l - 1, 512 * bound, w)} | |w| == m.Levels()
        ensures CopiedAt(m, s0.mem, s.mem, kt[[]], ut[[]], l - 1, 512 * bound, w)
      {
        assert CopiedAt(m, s0.mem, s.mem, kt[[]], ut[[]], l, bound, w);
        PageNoDown(w, l, bound);
      }
    }
    if Copying(m, s0, kt, ut0, s, ut, l - 1, 512 * bound) {
      forall w: Vpn {:trigger CopiedAt(m, s0.mem, s.mem, kt[[]], ut[[]], l, bound, w)} | |w| == m.Levels()
        ensures CopiedAt(m, s0.mem, s.mem, kt[[]], ut[[]], l, bound, w)
      {
        assert CopiedAt(m, s0.mem, s.mem, kt[[]], ut[[]], l - 1, 512 * bound, w);
        PageNoDown(w, l, bound);
      }
    }
  }

  /** No entry on the way to kernel table `p` has the USER bit. */
  ghost predicate KernelReach(m: Mode, kmem: Frames, kt: Tree, p: seq<Index>)
    requires Wf(m, kmem, kt) && p in kt
  {
    forall w: Vpn {:trigger KernelWalk(m, kmem, kt[[]], m.Levels() - 1, w)} ::
      |w| == m.Levels() && w[LevelOf(m, p) + 1..] == p ==>
      KernelWalk(m, kmem, kt[[]], m.Levels() - 1, w) == KernelWalk(m, kmem, kt[p], LevelOf(m, p), w)
  }

  lemma {:induction false} ReachChild(m: Mode, kmem: Frames, kt: Tree, p: seq<Index>, i: Index)
    requires Wf(m, kmem, kt) && p in kt && KernelReach(m, kmem, kt, p)
    requires var e := kmem[kt[p]][i]; e.IsPointer() && USER !in e.flags
    ensures [i] + p in kt && kt[[i] + p] == kmem[kt[p]][i].ppn && KernelReach(m, kmem, kt, [i] + p)
  {
    var q := [i] + p;
    assert EntryOk(m, kt, p, i, kmem[kt[p]][i]);
    assert Linked(kmem, kt, q) && q[1..] == p;
    forall w: Vpn {:trigger KernelWalk(m, kmem, kt[[]], m.Levels() - 1, w)}
      | |w| == m.Levels() && w[LevelOf(m, q) + 1..] == q
      ensures KernelWalk(m, kmem, kt[[]], m.Levels() - 1, w) == KernelWalk(m, kmem, kt[q], LevelOf(m, q), w)
    {
      var l := LevelOf(m, p);
      assert w[l..] == q && w[l..][1..] == w[l + 1..] && w[l..][0] == w[l];
    }
  }

  /** The entry of kernel table `p` that `w` passes decides what the copy maps at `w`. */
  lemma {:induction false} ReachEntry(m: Mode, kmem: Frames, kt: Tree, p: seq<Index>, i: Index, w: Vpn)
    requires Wf(m, kmem, kt) && p in kt && KernelReach(m, kmem, kt, p) && |w| == m.Levels()
    requires w[LevelOf(m, p)..] == [i] + p
    ensures var e := kmem[kt[p]][i];
            LeafOf(KernelWalk(m, kmem, kt[[]], m.Levels() - 1, w))
            == if !e.IsValid() || USER in e.flags then None
               else if e.IsLeaf() then Some((LevelOf(m, p), e))
               else LeafOf(KernelWalk(m, kmem, kt[[]], m.Levels() - 1, w))
  {
    var l := LevelOf(m, p);
    assert w[l..][1..] == w[l + 1..] && w[l..][0] == w[l] && ([i] + p)[1..] == p;
  }

  function Num(q: seq<Index>): nat { Value(q, |q|) }

  lemma {:induction false} NumCons(i: Index, p: seq<Index>)
    ensures Num([i] + p) == 512 * Num(p) + i
  {
    assert ([i] + p)[1..] == p;
  }

  lemma {:induction false} AtBound(m: Mode, p: seq<Index>, i: Index, w: Vpn)
    requires |p| < |w| == m.Levels()
    ensures PageNo(w, LevelOf(m, p)) == Num([i] + p) <==> w[LevelOf(m, p)..] == [i] + p
  {
    if PageNo(w, LevelOf(m, p)) == Num([i] + p) {
      ValueInjective(w[LevelOf(m, p)..], [i] + p);
    }
  }

  /** Entries that are not valid or belong to the user are skipped. */
  lemma {:induction false} CopySkip(m: Mode, s0: St, kt: Tree, ut0: Tree, s: St, ut: Tree, p: seq<Index>, i: Index,
      l: nat, b: nat)
    requires p in kt && |p| < m.Levels() && l == LevelOf(m, p) && b == Num([i] + p)
    requires Copying(m, s0, kt, ut0, s, ut, l, b)
    requires KernelReach(m, s0.mem, kt, p)
    requires var e := s0.mem[kt[p]][i]; !e.IsValid() || USER in e.flags
    ensures Copying(m, s0, kt, ut0, s, ut, l, b + 1)
  {
    forall w: Vpn {:trigger CopiedAt(m, s0.mem, s.mem, kt[[]], ut[[]], l, b + 1, w)} | |w| == m.Levels()
      ensures CopiedAt(m, s0.mem, s.mem, kt[[]], ut[[]], l, b + 1, w)
    {
      assert CopiedAt(m, s0.mem, s.mem, kt[[]], ut[[]], l, b, w);
      AtBound(m, p, i, w);
      if w[l..] == [i] + p {
        ReachEntry(m, s0.mem, kt, p, i, w);
      }
    }
    assert CopiedUpTo(m, s0.mem, s.mem, kt[[]], ut[[]], l, b + 1);
  }

  /** Mapping into the user tree keeps the kernel tree. */
  lemma {:induction false} KernelStays(m: Mode, s0: St, kt: Tree, s: St, ut: Tree, s': St, ut': Tree)
    requires StOk(m, s0) && StOk(m, s) && StOk(m, s') && KernelKept(m, s0, kt, s, ut) && Kept(m, s, ut, s', ut')
    ensures KernelKept(m, s0, kt, s', ut')
  {
    forall p {:trigger kt[p]} | p in kt
      ensures s'.mem[kt[p]] == s0.mem[kt[p]] && !Owned(ut', kt[p])
    {
      assert !Owned(ut, kt[p]) && !Free(s.gfa, kt[p]);
    }
  }

  /** New user tables lie above kernel tables. */
  lemma {:induction false} ShadowStays(m: Mode, kmem: Frames, kt: Tree, ut: Tree, ut': Tree, p: seq<Index>, v: Vpn)
    requires Wf(m, kmem, kt) && p in kt && |v| == m.Levels() && v[LevelOf(m, p) + 1..] == p
    requires forall q :: q in ut ==> q in kt
    requires forall q :: q in ut' && q !in ut ==> Suffix(v, q, LevelOf(m, p))
    ensures forall q :: q in ut' ==> q in kt
  {
    forall q | q in ut'
      ensures q in kt
    {
      if q !in ut {
        assert Suffix(v, q, LevelOf(m, p));
        assert q == p[|p| - |q|..];
        SuffixClosed(m, kmem, kt, p, |p| - |q|);
      }
    }
  }

  lemma {:induction false} NotShadowed(m: Mode, kmem: Frames, kt: Tree, p: seq<Index>, i: Index)
    requires Wf(m, kmem, kt) && p in kt && !kmem[kt[p]][i].IsPointer()
    ensures [i] + p !in kt
  {
    assert ([i] + p)[1..] == p;
    assert [i] + p in kt ==> Linked(kmem, kt, [i] + p);
  }

  lemma {:induction false} CopyRedirects(m: Mode, kmem: Frames, kt: Tree, mem: Frames, mem': Frames, u: nat,
      p: seq<Index>, i: Index, v: Vpn, f: nat, l: nat, b: nat)
    requires Wf(m, kmem, kt) && Ram(m, mem) && Ram(m, mem') && u < m.PpnLimit() && p in kt
    requires KernelReach(m, kmem, kt, p)
    requires |v| == m.Levels() && l == LevelOf(m, p) && b == Num([i] + p) && v[l..] == [i] + p
    requires var e := kmem[kt[p]][i]; e.IsValid() && e.IsLeaf() && USER !in e.flags
    requires CopiedUpTo(m, kmem, mem, kt[[]], u, l, b)
    requires Redirected(m, mem, mem', u, v, l, f, kmem[kt[p]][i])
    ensures CopiedUpTo(m, kmem, mem', kt[[]], u, l, b + 1)
  {
    forall w: Vpn {:trigger CopiedAt(m, kmem, mem', kt[[]], u, l, b + 1, w)} | |w| == m.Levels()
      ensures CopiedAt(m, kmem, mem', kt[[]], u, l, b + 1, w)
    {
      assert CopiedAt(m, kmem, mem, kt[[]], u, l, b, w);
      AtBound(m, p, i, w);
      if w[l..] == [i] + p {
        ReachEntry(m, kmem, kt, p, i, w);
      }
    }
  }

  /** The page of a kernel leaf is still unmapped in the copy when its turn comes. */
  lemma {:induction false} CopyLeafReady(m: Mode, s0: St, kt: Tree, ut0: Tree, s: St, ut: Tree, p: seq<Index>, i: Index,
      v: Vpn, l: nat, b: nat)
    requires p in kt && |p| < m.Levels() && l == LevelOf(m, p) && b == Num([i] + p)
    requires Copying(m, s0, kt, ut0, s, ut, l, b)
    requires |v| == m.Levels() && v[l..] == [i] + p
    requires var e := s0.mem[kt[p]][i]; e.IsValid() && e.IsLeaf()
    ensures WalkRoot(m, s.mem, ut[[]], v).Miss? && v[l..] !in ut
    ensures s0.mem[kt[p]][i].ppn % Span(l) == 0
  {
    assert EntryOk(m, kt, p, i, s0.mem[kt[p]][i]);
    assert CopiedAt(m, s0.mem, s.mem, kt[[]], ut[[]], l, b, v);
    AtBound(m, p, i, v);
    NotShadowed(m, s0.mem, kt, p, i);
  }

  lemma {:induction false} OnlyFramesFail(m: Mode, s: St, t: Tree, s': St, t': Tree, r: MapResult, v: Vpn, ppn: nat,
      l: nat, flags: Flags)
    requires l < |v| == m.Levels() && MapEffect(m, s, t, s', t', r, v, ppn, l, flags)
    requires WalkRoot(m, s.mem, t[[]], v).Miss? && v[l..] !in t
    ensures r.Err? ==> r == Err(AllocationFailed)
  {
    assert !Blocked(m, s.mem, t, v, l, flags);
    match r
    case Ok =>
    case Err(e) => match e { case AllocationFailed => case AlreadyMapped => case CorruptedPageTable => }
  }

  /** A kernel leaf is mapped at the same place; that can only fail for want of a frame. */
  lemma {:induction false} CopyLeaf(m: Mode, s0: St, kt: Tree, ut0: Tree, s: St, ut: Tree, p: seq<Index>, i: Index,
      v: Vpn, s': St, ut': Tree, r: MapResult, l: nat, b: nat)
    requires p in kt && |p| < m.Levels() && l == LevelOf(m, p) && b == Num([i] + p)
    requires Copying(m, s0, kt, ut0, s, ut, l, b)
    requires KernelReach(m, s0.mem, kt, p) && |v| == m.Levels() && v[l..] == [i] + p
    requires WalkRoot(m, s.mem, ut[[]], v).Miss? && v[l..] !in ut
    requires var e := s0.mem[kt[p]][i];
             e.IsValid() && e.IsLeaf() && USER !in e.flags && MapEffect(m, s, ut, s', ut', r, v, e.ppn, l, e.flags)
    ensures CopyOutcome(m, s0, kt, ut0, s', ut', l, b + 1, r)
  {
    var e := s0.mem[kt[p]][i];
    assert v[l..][1..] == v[l + 1..] && ([i] + p)[1..] == p;
    assert e.flags + {VALID} == e.flags;
    KeptTwice(m, s0, ut0, s, ut, s', ut');
    KernelStays(m, s0, kt, s, ut, s', ut');
    assert ut'[[]] == ut[[]];
    OnlyFramesFail(m, s, ut, s', ut', r, v, e.ppn, l, e.flags);
    if r.Ok? {
      ShadowStays(m, s0.mem, kt, ut, ut', p, v);
      CopyRedirects(m, s0.mem, kt, s.mem, s'.mem, ut[[]], p, i, v, ut'[v[l + 1..]], l, b);
    }
  }

  /** How a step of the copy ends: on to `b`, or out of frames with the kernel tree intact. */
  ghost predicate CopyOutcome(m: Mode, s0: St, kt: Tree, ut0: Tree, s: St, ut: Tree, l: nat, b: nat, r: MapResult) {
    if r.Ok? then Copying(m, s0, kt, ut0, s, ut, l, b)
    else
      && r == Err(AllocationFailed) && Exhausted(s.gfa, 1)
      && Kept(m, s0, ut0, s, ut) && KernelKept(m, s0, kt, s, ut)
  }

  /** The tree of a cleared root table: it maps nothing. */
  lemma {:induction false} EmptyRoot(m: Mode, s: St, u: nat)
    requires StOk(m, s) && u < m.PpnLimit() && !Free(s.gfa, u) && s.mem[u] == EmptyTable()
    ensures Space(m, s, map[[] := u]) && forall w: Vpn {:trigger WalkRoot(m, s.mem, u, w)} :: |w| == m.Levels() ==>
        WalkRoot(m, s.mem, u, w).Miss?
  {
    var t: Tree := map[[] := u];
    forall p, i: Index {:trigger EntryOk(m, t, p, i, s.mem[t[p]][i])} | p in t
      ensures EntryOk(m, t, p, i, s.mem[t[p]][i])
    {
    }
    forall p, q {:trigger Apart(t, p, q)} | p in t && q in t
      ensures Apart(t, p, q)
    {
    }
  }

  /** Every address of the copy leads to the same leaf as in the kernel tree, unless an entry on its
      kernel path has the USER bit, in which case it is unmapped. */
  ghost predicate Copied(m: Mode, kmem: Frames, mem: Frames, k: nat, u: nat)
    requires Ram(m, kmem) && Ram(m, mem) && k < m.PpnLimit() && u < m.PpnLimit()
  {
    forall w: Vpn {:trigger WalkRoot(m, mem, u, w)} :: |w| == m.Levels() ==>
      LeafOf(WalkRoot(m, mem, u, w)) == if UserOnPath(m, kmem, k, m.Levels() - 1, w) then None
        else LeafOf(WalkRoot(m, kmem, k, w))
  }

  /** Then every address translates as for the kernel, or to nothing if an entry on its path is USER. */
  lemma {:induction false} CopyTranslates(m: Mode, kmem: Frames, mem: Frames, k: nat, u: nat, x: nat)
    requires Ram(m, kmem) && Ram(m, mem) && k < m.PpnLimit() && u < m.PpnLimit() && Copied(m, kmem, mem, k, u)
    ensures VirtToPhys(m, mem, u, x)
         == if UserOnPath(m, kmem, k, m.Levels() - 1, VpnOf(m, x)) then None else VirtToPhys(m, kmem, k, x)
  {
    var h := WalkRoot(m, mem, u, VpnOf(m, x));
  }

  lemma {:induction false} CopyBegins(m: Mode, s: St, kt: Tree, u: nat)
    requires StOk(m, s) && u < m.PpnLimit() && !Free(s.gfa, u) && s.mem[u] == EmptyTable()
    requires Wf(m, s.mem, kt) && Fresh(s.gfa, kt) && !Owned(kt, u)
    ensures Copying(m, s, kt, map[[] := u], s, map[[] := u], m.Levels() - 1, 0)
    ensures KernelReach(m, s.mem, kt, [])
  {
    var ut: Tree := map[[] := u];
    EmptyRoot(m, s, u);
    forall w: Vpn {:trigger CopiedAt(m, s.mem, s.mem, kt[[]], u, m.Levels() - 1, 0, w)} | |w| == m.Levels()
      ensures CopiedAt(m, s.mem, s.mem, kt[[]], u, m.Levels() - 1, 0, w)
    {
      assert WalkRoot(m, s.mem, u, w).Miss?;
    }
    assert CopiedUpTo(m, s.mem, s.mem, kt[[]], ut[[]], m.Levels() - 1, 0);
    forall p {:trigger Owned(ut, kt[p])} | p in kt
      ensures !Owned(ut, kt[p])
    {
      assert kt[p] == u ==> Owned(kt, u);
    }
  }

  lemma {:induction false} CopyEnds(m: Mode, s0: St, kt: Tree, ut0: Tree, s: St, ut: Tree)
    requires Copying(m, s0, kt, ut0, s, ut, m.Levels() - 1, 512)
    ensures Copied(m, s0.mem, s.mem, kt[[]], ut[[]])
  {
    forall w: Vpn {:trigger WalkRoot(m, s.mem, ut[[]], w)} | |w| == m.Levels()
      ensures LeafOf(WalkRoot(m, s.mem, ut[[]], w))
           == if UserOnPath(m, s0.mem, kt[[]], m.Levels() - 1, w) then None else LeafOf(WalkRoot(m, s0.mem, kt[[]], w))
    {
      assert CopiedAt(m, s0.mem, s.mem, kt[[]], ut[[]], m.Levels() - 1, 512, w);
      assert w[|w| - 1..] == [w[|w| - 1]] && Value(w[|w| - 1..][1..], 0) == 0;
      KernelWalkIs(m, s0.mem, kt[[]], m.Levels() - 1, w);
    }
  }

  /** Only the frames of the kernel tree matter to its copy. */
  lemma {:induction false} UserPathFrame(m: Mode, mem: Frames, mem': Frames, kt: Tree, v: Vpn, l: nat)
    requires Wf(m, mem, kt) && Ram(m, mem') && l < |v| == m.Levels() && v[l + 1..] in kt
    requires forall p :: p in kt ==> mem'[kt[p]] == mem[kt[p]]
    ensures UserOnPath(m, mem', kt[v[l + 1..]], l, v) == UserOnPath(m, mem, kt[v[l + 1..]], l, v)
  {
    if mem[kt[v[l + 1..]]][v[l]].IsPointer() {
      PointerStep(m, mem, kt, v, l);
      UserPathFrame(m, mem, mem', kt, v, l - 1);
    }
  }

  lemma {:induction false} CopiedFrom(m: Mode, kmem: Frames, kmem': Frames, mem: Frames, kt: Tree, u: nat)
    requires Wf(m, kmem, kt) && Ram(m, kmem') && Ram(m, mem) && u < m.PpnLimit()
    requires (forall p :: p in kt ==> kmem'[kt[p]] == kmem[kt[p]]) && Copied(m, kmem', mem, kt[[]], u)
    ensures Copied(m, kmem, mem, kt[[]], u)
  {
    forall w: Vpn {:trigger WalkRoot(m, mem, u, w)} | |w| == m.Levels()
      ensures LeafOf(WalkRoot(m, mem, u, w))
           == if UserOnPath(m, kmem, kt[[]], m.Levels() - 1, w) then None else LeafOf(WalkRoot(m, kmem, kt[[]], w))
    {
      assert w[|w|..] == [];
      UserPathFrame(m, kmem, kmem', kt, w, |w| - 1);
      WalkFrame(m, kmem, kmem', kt, w, |w| - 1);
    }
  }

  // ---------- the recursive copy ----------

  /** The loop of the recursive copy over the kernel table `ktable` of level `l`, from entry `i` on, which
      is page number `no` of that level. */
  function CopyFrom(m: Mode, s: St, root: nat, ktable: nat, no: nat, l: nat, i: nat): (r: (St, MapResult))
    requires StOk(m, s) && root < m.PpnLimit() && ktable < m.PpnLimit() && l < m.Levels() && i <= 512
    ensures StOk(m, r.0) && r.0.gfa.end == s.gfa.end && r.0.gfa.ptr >= s.gfa.ptr
    decreases l, 1, 512 - i
  {
    if i == 512 then (s, Ok)
    else
      var (s1, r) := CopyEntry(m, s, root, s.mem[ktable][i], no, l);
      if r.Err? then (s1, r) else CopyFrom(m, s1, root, ktable, no + 1, l, i + 1)
  }

  /** The copy of one kernel entry, number `no` of its level: skipped, mapped, or descended into. */
  function CopyEntry(m: Mode, s: St, root: nat, e: Entry, no: nat, l: nat): (r: (St, MapResult))
    requires StOk(m, s) && root < m.PpnLimit() && e.ppn < m.PpnLimit() && l < m.Levels()
    ensures StOk(m, r.0) && r.0.gfa.end == s.gfa.end && r.0.gfa.ptr >= s.gfa.ptr
    decreases l, 0, 0
  {
    if !e.IsValid() || USER in e.flags then (s, Ok)
    else if e.IsLeaf() then MapPage(m, s, root, VpnOf(m, Times(no, Size(l))), e.ppn, l, e.flags)
    else if l == 0 then (s, Err(CorruptedPageTable))
    else CopyFrom(m, s, root, e.ppn, 512 * no, l - 1, 0)
  }

  /** On every memory the copy of an entry of level 0 reports corruption exactly if the entry is a pointer the
      kernel owns; a user entry and one that is not valid are skipped at every level. */
  lemma {:induction false} CorruptIff(m: Mode, s: St, root: nat, e: Entry, no: nat, l: nat)
    requires StOk(m, s) && root < m.PpnLimit() && e.ppn < m.PpnLimit() && l < m.Levels()
    ensures l == 0 ==>
      (CopyEntry(m, s, root, e, no, l).1 == Err(CorruptedPageTable) <==> e.IsPointer() && USER !in e.flags)
    ensures !e.IsValid() || USER in e.flags ==> CopyEntry(m, s, root, e, no, l) == (s, Ok)
  {
    var v := VpnOf(m, Times(no, Size(l)));
    assert MapPage(m, s, root, v, e.ppn, l, e.flags).1 != Err(CorruptedPageTable);
  }

  lemma {:induction false} NumBound(p: seq<Index>)
    ensures Num(p) < Span(|p|)
  {
    if p != [] {
      NumBound(p[1..]);
    }
  }

  /** Page number `no` of level `l` has the digits of the entry it is the number of. */
  lemma {:induction false} EntryDigits(m: Mode, p: seq<Index>, i: Index, l: nat, no: nat)
    requires |p| < m.Levels() && l == LevelOf(m, p) && no == Num([i] + p)
    ensures VpnOf(m, Times(no, Size(l)))[l..] == [i] + p
  {
    var a := Times(no, Size(l));
    NumBound([i] + p);
    PagesFill(m, no + 1, l);
    SmallMod(a, VaLimit(m));
    PageExact(m, a, no, 0, l);
    PageNoOf(m, a, l);
    AtBound(m, p, i, VpnOf(m, a));
  }

  /** What a copy keeps: `at(s, l, b)` when it has come to page `b` of level `l` in state `s`, and
      `failed(s, e)` when it ended with an error. */
  datatype CopyInv = CopyInv(at: (St, nat, nat) -> bool, failed: (St, MapError) -> bool)

  ghost predicate Settled(m: Mode, s0: St, kt: Tree, inv: CopyInv, s: St, l: nat, b: nat)
    requires Wf(m, s0.mem, kt)
  {
    inv.at(s, l, b) ==> StOk(m, s) && forall p {:trigger kt[p]} :: p in kt ==> s.mem[kt[p]] == s0.mem[kt[p]]
  }

  ghost predicate SameAbove(inv: CopyInv, s: St, l: nat, b: nat) {
    inv.at(s, l + 1, b) <==> inv.at(s, l, 512 * b)
  }

  /** Skipping or mapping entry `i` of the kernel table `p` keeps it. */
  ghost predicate EntryKeeps(m: Mode, s0: St, kt: Tree, root: nat, inv: CopyInv, s: St, p: seq<Index>, i: Index)
    requires Wf(m, s0.mem, kt) && p in kt && root < m.PpnLimit() && StOk(m, s)
  {
    var l, b, e := LevelOf(m, p), Num([i] + p), s0.mem[kt[p]][i];
    inv.at(s, l, b) && KernelReach(m, s0.mem, kt, p) && !(e.IsPointer() && USER !in e.flags) ==>
      EndsAt(inv, CopyEntry(m, s, root, e, b, l), l, b + 1)
  }

  predicate EndsAt(inv: CopyInv, out: (St, MapResult), l: nat, b: nat) {
    if out.1.Ok? then inv.at(out.0, l, b) else inv.failed(out.0, out.1.error)
  }

  ghost predicate Inductive(m: Mode, s0: St, kt: Tree, root: nat, inv: CopyInv)
    requires Wf(m, s0.mem, kt) && root < m.PpnLimit()
  {
    && (forall s, l: nat, b: nat {:trigger Settled(m, s0, kt, inv, s, l, b)} :: Settled(m, s0, kt, inv, s, l, b))
    && (forall s, l: nat, b: nat {:trigger SameAbove(inv, s, l, b)} :: l + 1 < m.Levels() ==> SameAbove(inv, s, l, b))
    && (forall s, p, i: Index {:trigger EntryKeeps(m, s0, kt, root, inv, s, p, i)} ::
          p in kt && StOk(m, s) ==> EntryKeeps(m, s0, kt, root, inv, s, p, i))
  }

  lemma {:induction false} CopyBelow(m: Mode, s0: St, kt: Tree, root: nat, inv: CopyInv, s: St, p: seq<Index>, i: Index,
      l: nat, b: nat, e: Entry) returns (s': St, r: MapResult)
    requires Wf(m, s0.mem, kt) && root < m.PpnLimit() && Inductive(m, s0, kt, root, inv)
    requires p in kt && l == LevelOf(m, p) && KernelReach(m, s0.mem, kt, p)
    requires inv.at(s, l, b) && StOk(m, s) && b == Num([i] + p) && e == s0.mem[kt[p]][i]
    requires e.IsPointer() && USER !in e.flags
    ensures l > 0 && (s', r) == CopyFrom(m, s, root, e.ppn, 512 * b, l - 1, 0)
    ensures EndsAt(inv, (s', r), l, b + 1)
    decreases l, 0, 0
  {
    ReachChild(m, s0.mem, kt, p, i);
    assert SameAbove(inv, s, l - 1, b);
    s', r := CopyTable(m, s0, kt, root, inv, s, [i] + p, l - 1, 0, 512 * b, 512 * b + 512);
    assert SameAbove(inv, s', l - 1, b + 1);
  }

  /** One entry of the kernel table `p`. */
  lemma {:induction false} CopyAt(m: Mode, s0: St, kt: Tree, root: nat, inv: CopyInv, s: St, p: seq<Index>, i: Index,
      l: nat, b: nat, e: Entry) returns (s': St, r: MapResult)
    requires Wf(m, s0.mem, kt) && root < m.PpnLimit() && Inductive(m, s0, kt, root, inv)
    requires p in kt && l == LevelOf(m, p) && KernelReach(m, s0.mem, kt, p)
    requires inv.at(s, l, b) && StOk(m, s) && b == Num([i] + p) && e == s0.mem[kt[p]][i]
    ensures (s', r) == CopyEntry(m, s, root, e, b, l)
    ensures EndsAt(inv, (s', r), l, b + 1)
    decreases l, 0, 1
  {
    if e.IsPointer() && USER !in e.flags {
      s', r := CopyBelow(m, s0, kt, root, inv, s, p, i, l, b, e);
      return;
    }
    assert EntryKeeps(m, s0, kt, root, inv, s, p, i);
    var (s1, r1) := CopyEntry(m, s, root, e, b, l);
    return s1, r1;
  }

  lemma {:induction false} CopyTurn(m: Mode, s: St, root: nat, ktable: nat, no: nat, l: nat, i: nat, s1: St,
      r: MapResult)
    requires StOk(m, s) && root < m.PpnLimit() && ktable < m.PpnLimit() && l < m.Levels() && i < 512
    requires (s1, r) == CopyEntry(m, s, root, s.mem[ktable][i], no, l)
    ensures StOk(m, s1) && CopyFrom(m, s, root, ktable, no, l, i)
         == if r.Err? then (s1, r) else CopyFrom(m, s1, root, ktable, no + 1, l, i + 1)
  {
  }

  /** The kernel table `p` from entry `i` on: pages `no` to `end` of its level. */
  lemma {:induction false} CopyTable(m: Mode, s0: St, kt: Tree, root: nat, inv: CopyInv, s: St, p: seq<Index>, l: nat,
      i: nat, no: nat, end: nat) returns (s': St, r: MapResult)
    requires Wf(m, s0.mem, kt) && root < m.PpnLimit() && Inductive(m, s0, kt, root, inv)
    requires p in kt && l == LevelOf(m, p) && KernelReach(m, s0.mem, kt, p)
    requires inv.at(s, l, no) && StOk(m, s) && i <= 512 && no == 512 * Num(p) + i && end == 512 * Num(p) + 512
    ensures (s', r) == CopyFrom(m, s, root, kt[p], no, l, i)
    ensures EndsAt(inv, (s', r), l, end)
    decreases l, 1, 512 - i
  {
    if i == 512 {
      return s, Ok;
    }
    NumCons(i, p);
    assert Settled(m, s0, kt, inv, s, l, no);
    s', r := CopyAt(m, s0, kt, root, inv, s, p, i, l, no, s.mem[kt[p]][i]);
    CopyTurn(m, s, root, kt[p], no, l, i, s', r);
    if r.Err? {
      return;
    }
    s', r := CopyTable(m, s0, kt, root, inv, s', p, l, i + 1, no + 1, end);
  }

  /** The invariant of a copy into the tree that was `ut0`. */
  ghost predicate CopyAtPage(m: Mode, s0: St, kt: Tree, ut0: Tree, s: St, l: nat, b: nat) {
    exists ut :: Copying(m, s0, kt, ut0, s, ut, l, b)
  }

  ghost predicate CopyFailed(m: Mode, s0: St, kt: Tree, ut0: Tree, s: St, e: MapError) {
    exists ut :: CopyOutcome(m, s0, kt, ut0, s, ut, 0, 0, Err(e))
  }

  ghost function InvOf(m: Mode, s0: St, kt: Tree, ut0: Tree): CopyInv {
    CopyInv((s: St, l: nat, b: nat) => CopyAtPage(m, s0, kt, ut0, s, l, b),
      (s: St, e: MapError) => CopyFailed(m, s0, kt, ut0, s, e))
  }

  lemma {:induction false} PageLevels(m: Mode, s0: St, kt: Tree, ut0: Tree, s: St, l: nat, b: nat, c: nat)
    requires l + 1 < m.Levels() && c == 512 * b
    ensures CopyAtPage(m, s0, kt, ut0, s, l + 1, b) <==> CopyAtPage(m, s0, kt, ut0, s, l, c)
  {
    var k := l + 1;
    if ut :| Copying(m, s0, kt, ut0, s, ut, k, b) {
      CopyLevels(m, s0, kt, ut0, s, ut, k, b);
      assert Copying(m, s0, kt, ut0, s, ut, l, c);
    }
    if ut :| Copying(m, s0, kt, ut0, s, ut, l, c) {
      CopyLevels(m, s0, kt, ut0, s, ut, k, b);
      assert Copying(m, s0, kt, ut0, s, ut, k, b);
    }
  }

  lemma {:induction false} PageSettled(m: Mode, s0: St, kt: Tree, ut0: Tree, s: St, l: nat, b: nat)
    requires CopyAtPage(m, s0, kt, ut0, s, l, b)
    ensures StOk(m, s0) && StOk(m, s) && forall p {:trigger kt[p]} :: p in kt ==> s.mem[kt[p]] == s0.mem[kt[p]]
  {
  }

  lemma {:induction false} SkipKeeps(m: Mode, s0: St, kt: Tree, ut0: Tree, s: St, p: seq<Index>, i: Index, l: nat,
      b: nat, e: Entry)
    requires CopyAtPage(m, s0, kt, ut0, s, l, b) && Wf(m, s0.mem, kt) && p in kt && KernelReach(m, s0.mem, kt, p)
    requires l == LevelOf(m, p) && b == Num([i] + p) && e == s0.mem[kt[p]][i] && (!e.IsValid() || USER in e.flags)
    ensures CopyAtPage(m, s0, kt, ut0, s, l, b + 1)
  {
    var ut :| Copying(m, s0, kt, ut0, s, ut, l, b);
    CopySkip(m, s0, kt, ut0, s, ut, p, i, l, b);
  }

  lemma {:induction false} LeafKeeps(m: Mode, s0: St, kt: Tree, ut0: Tree, s: St, p: seq<Index>, i: Index, l: nat,
      b: nat, e: Entry) returns (s': St, r: MapResult)
    requires CopyAtPage(m, s0, kt, ut0, s, l, b) && Wf(m, s0.mem, kt) && p in kt && KernelReach(m, s0.mem, kt, p)
    requires l == LevelOf(m, p) && b == Num([i] + p) && e == s0.mem[kt[p]][i]
    requires e.IsValid() && e.IsLeaf() && USER !in e.flags
    ensures (s', r) == CopyEntry(m, s, ut0[[]], e, b, l)
    ensures if r.Ok? then CopyAtPage(m, s0, kt, ut0, s', l, b + 1) else CopyFailed(m, s0, kt, ut0, s', r.error)
  {
    var ut :| Copying(m, s0, kt, ut0, s, ut, l, b);
    var v := VpnOf(m, Times(b, Size(l)));
    EntryDigits(m, p, i, l, b);
    CopyLeafReady(m, s0, kt, ut0, s, ut, p, i, v, l, b);
    var ut';
    s', r, ut' := MapRefines(m, s, ut, v, e.ppn, l, e.flags);
    CopyLeaf(m, s0, kt, ut0, s, ut, p, i, v, s', ut', r, l, b);
    if r.Err? {
      assert CopyOutcome(m, s0, kt, ut0, s', ut', 0, 0, r);
    }
  }

  /** One entry that is no kernel pointer. */
  lemma {:induction false} StepKeeps(m: Mode, s0: St, kt: Tree, ut0: Tree, s: St, p: seq<Index>, i: Index, l: nat,
      b: nat, e: Entry) returns (s': St, r: MapResult)
    requires CopyAtPage(m, s0, kt, ut0, s, l, b) && Wf(m, s0.mem, kt) && p in kt && KernelReach(m, s0.mem, kt, p)
    requires l == LevelOf(m, p) && b == Num([i] + p) && e == s0.mem[kt[p]][i] && !(e.IsPointer() && USER !in e.flags)
    ensures (s', r) == CopyEntry(m, s, ut0[[]], e, b, l)
    ensures if r.Ok? then CopyAtPage(m, s0, kt, ut0, s', l, b + 1) else CopyFailed(m, s0, kt, ut0, s', r.error)
  {
    if !e.IsValid() || USER in e.flags {
      SkipKeeps(m, s0, kt, ut0, s, p, i, l, b, e);
      return s, Ok;
    }
    s', r := LeafKeeps(m, s0, kt, ut0, s, p, i, l, b, e);
  }

  lemma {:induction false} InvEntry(m: Mode, s0: St, kt: Tree, ut0: Tree, root: nat, inv: CopyInv, s: St, p: seq<Index>,
      i: Index)
    requires Wf(m, s0.mem, kt) && p in kt && [] in ut0 && ut0[[]] == root < m.PpnLimit() && StOk(m, s)
    requires inv == InvOf(m, s0, kt, ut0)
    ensures EntryKeeps(m, s0, kt, root, inv, s, p, i)
  {
    var l, b, e := LevelOf(m, p), Num([i] + p), s0.mem[kt[p]][i];
    if CopyAtPage(m, s0, kt, ut0, s, l, b) && KernelReach(m, s0.mem, kt, p) && !(e.IsPointer() && USER !in e.flags) {
      var s', r := StepKeeps(m, s0, kt, ut0, s, p, i, l, b, e);
      assert EndsAt(inv, (s', r), l, b + 1);
    }
  }

  lemma {:induction false} InvInductive(m: Mode, s0: St, kt: Tree, ut0: Tree, root: nat, inv: CopyInv)
    requires Wf(m, s0.mem, kt) && [] in ut0 && ut0[[]] == root < m.PpnLimit() && inv == InvOf(m, s0, kt, ut0)
    ensures Inductive(m, s0, kt, root, inv)
  {
    forall s, l: nat, b: nat {:trigger Settled(m, s0, kt, inv, s, l, b)}
      ensures Settled(m, s0, kt, inv, s, l, b)
    {
      if CopyAtPage(m, s0, kt, ut0, s, l, b) {
        PageSettled(m, s0, kt, ut0, s, l, b);
      }
    }
    forall s, l: nat, b: nat {:trigger SameAbove(inv, s, l, b)} | l + 1 < m.Levels()
      ensures SameAbove(inv, s, l, b)
    {
      PageLevels(m, s0, kt, ut0, s, l, b, 512 * b);
    }
    forall s, p, i: Index {:trigger EntryKeeps(m, s0, kt, root, inv, s, p, i)} | p in kt && StOk(m, s)
      ensures EntryKeeps(m, s0, kt, root, inv, s, p, i)
    {
      InvEntry(m, s0, kt, ut0, root, inv, s, p, i);
    }
  }

  /** The outcome of the whole copy from the kernel tree `kt` into the cleared root `u`. */
  ghost predicate CopyEffect(m: Mode, s: St, kt: Tree, u: nat, s': St, ut: Tree, r: MapResult) {
    && Kept(m, s, map[[] := u], s', ut) && KernelKept(m, s, kt, s', ut)
    && (r.Ok? ==> Copied(m, s.mem, s'.mem, kt[[]], u))
    && (r.Err? ==> r == Err(AllocationFailed) && Exhausted(s'.gfa, 1))
  }

  lemma {:induction false} CopyEndsWell(m: Mode, s: St, kt: Tree, u: nat, ut0: Tree, s': St, r: MapResult)
    requires ut0 == map[[] := u]
    requires if r.Ok? then CopyAtPage(m, s, kt, ut0, s', m.Levels() - 1, 512)
        else CopyFailed(m, s, kt, ut0, s', r.error)
    ensures exists ut :: CopyEffect(m, s, kt, u, s', ut, r)
  {
    var l := m.Levels() - 1;
    if r.Ok? {
      var ut :| Copying(m, s, kt, ut0, s', ut, l, 512);
      CopyEnds(m, s, kt, ut0, s', ut);
      assert CopyEffect(m, s, kt, u, s', ut, r);
    } else {
      var ut :| CopyOutcome(m, s, kt, ut0, s', ut, 0, 0, Err(r.error));
      assert CopyEffect(m, s, kt, u, s', ut, r);
    }
  }

  /** `copy_kernel_mappings` into a cleared root: it succeeds unless frames run out. */
  lemma {:induction false} CopyRefines(m: Mode, s: St, kt: Tree, u: nat) returns (s': St, r: MapResult)
    requires StOk(m, s) && u < m.PpnLimit() && !Free(s.gfa, u) && s.mem[u] == EmptyTable()
    requires Wf(m, s.mem, kt) && Fresh(s.gfa, kt) && !Owned(kt, u)
    ensures (s', r) == CopyFrom(m, s, u, kt[[]], 0, m.Levels() - 1, 0)
    ensures exists ut :: CopyEffect(m, s, kt, u, s', ut, r)
  {
    var ut0: Tree := map[[] := u];
    CopyBegins(m, s, kt, u);
    var inv := InvOf(m, s, kt, ut0);
    InvInductive(m, s, kt, ut0, u, inv);
    assert Num([]) == 0;
    s', r := CopyTable(m, s, kt, u, inv, s, [], m.Levels() - 1, 0, 0, 512);
    CopyEndsWell(m, s, kt, u, ut0, s', r);
  }
}
