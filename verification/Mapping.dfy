/** `PageTableWalker::map` and its loops, as functions of memory and the frame allocator. */
module Mapping {
  import opened Paging
  import opened Wrappers

  /** The bump frame allocator: the byte range not handed out yet. */
  datatype Gfa = Gfa(ptr: nat, end: nat)

  /** `BumpFrameAllocator::alloc`: the address of `count` contiguous frames. */
  function AllocFrames(g: Gfa, count: nat): Option<(nat, Gfa)> {
    var next := g.ptr + count * 4096;
    if next >= 0x1_0000_0000_0000_0000 || next > g.end || g.ptr >= 0x100_0000_0000_0000 then None
    else Some((g.ptr, g.(ptr := next)))
  }

  /** The allocator hands out whole frames whose numbers fit an entry. */
  predicate GfaOk(m: Mode, g: Gfa) {
    g.ptr % 4096 == 0 && g.ptr <= g.end <= m.PpnLimit() * 4096
  }

  /** Fewer than `n` frames are left, or none. */
  predicate Exhausted(g: Gfa, n: nat) {
    g.end < g.ptr + 4096 * n || g.end < g.ptr + 4096
  }

  /** The allocator hands out the next `count` frames unless fewer are left. */
  lemma {:induction false} AllocIff(m: Mode, g: Gfa, count: nat)
    requires GfaOk(m, g) && count >= 1
    ensures AllocFrames(g, count).None? <==> g.end - g.ptr < 4096 * count
    ensures Exhausted(g, count) <==> g.end - g.ptr < 4096 * count
    ensures AllocFrames(g, count).Some? ==> AllocFrames(g, count).value == (g.ptr, Gfa(g.ptr + 4096 * count, g.end))
  {
  }

  /** Frame `f` may still be handed out. */
  predicate Free(g: Gfa, f: nat) {
    g.ptr <= f * 4096 < g.end
  }

  ghost predicate Fresh(g: Gfa, t: Tree) {
    forall p :: p in t ==> !Free(g, t[p])
  }

  datatype St = St(mem: Frames, gfa: Gfa)

  ghost predicate StOk(m: Mode, s: St) {
    Ram(m, s.mem) && GfaOk(m, s.gfa)
  }

  datatype MapError = AlreadyMapped | AllocationFailed | CorruptedPageTable
  datatype MapResult = Ok | Err(error: MapError)

  /** The memory after linking and clearing a new table `g` below entry `i` of frame `f`. */
  function Link(m: Mode, mem: Frames, f: nat, i: Index, g: nat): Frames
    requires f in mem && |mem[f]| == 512
  {
    Put(mem, f, i, EMPTY.(flags := {VALID}).SetPpn(m, g))[g := EmptyTable()]
  }

  /** One turn of the descent loop of `map`: follow entry `i` of table `f`, or link a new table. */
  function NextTable(m: Mode, s: St, f: nat, i: Index): (r: (St, Option<nat>))
    requires StOk(m, s) && f < m.PpnLimit()
    ensures StOk(m, r.0) && r.0.gfa.end == s.gfa.end && r.0.gfa.ptr >= s.gfa.ptr
    ensures r.1.Some? ==> r.1.value < m.PpnLimit()
  {
    var e := s.mem[f][i];
    if e.IsValid() then (s, Some(e.ppn))
    else match AllocFrames(s.gfa, 1)
      case None => (s, None)
      case Some((addr, gfa)) => (St(Link(m, s.mem, f, i, addr / 4096), gfa), Some(addr / 4096))
  }

  /** The descent loop of `map` from table `f` of level `l` to the table of level `target`. */
  function Descend(m: Mode, s: St, f: nat, l: nat, target: nat, v: Vpn): (r: (St, Option<nat>))
    requires StOk(m, s) && f < m.PpnLimit() && target <= l < |v|
    ensures StOk(m, r.0) && r.0.gfa.end == s.gfa.end && r.0.gfa.ptr >= s.gfa.ptr
    ensures r.1.Some? ==> r.1.value < m.PpnLimit()
    decreases l
  {
    if l == target then (s, Some(f))
    else
      var (s1, next) := NextTable(m, s, f, v[l]);
      if next.None? then (s1, None) else Descend(m, s1, next.value, l - 1, target, v)
  }

  /** `map`, for the page of level `target` with digits `v` and the frame number `ppn`. */
  function MapPage(m: Mode, s: St, root: nat, v: Vpn, ppn: nat, target: nat, flags: Flags): (r: (St, MapResult))
    requires StOk(m, s) && root < m.PpnLimit() && target < |v| == m.Levels()
    ensures StOk(m, r.0) && r.0.gfa.end == s.gfa.end && r.0.gfa.ptr >= s.gfa.ptr
  {
    var (s1, table) := Descend(m, s, root, m.Levels() - 1, target, v);
    if table.None? then (s1, Err(AllocationFailed))
    else
      var f := table.value;
      var e := s1.mem[f][v[target]];
      if e.IsValid() && e.flags != flags + {VALID} then (s1, Err(AlreadyMapped))
      else (s1.(mem := Put(s1.mem, f, v[target], e.WriteFlags(flags + {VALID}).SetPpn(m, ppn))), Ok)
  }

  // ---------- what the descent does to a well-formed tree ----------

  ghost predicate Space(m: Mode, s: St, t: Tree) {
    StOk(m, s) && Wf(m, s.mem, t) && Fresh(s.gfa, t)
  }

  predicate Suffix(v: Vpn, p: seq<Index>, k: nat) {
    k < |v| && |p| <= |v| - 1 - k && p == v[|v| - |p|..]
  }

  ghost predicate Owned(t: Tree, f: nat) {
    exists p :: p in t && t[p] == f
  }

  /** Frames that are neither tables of `t` nor free keep their contents. */
  ghost predicate Confined(m: Mode, s: St, t: Tree, s': St)
    requires StOk(m, s) && StOk(m, s')
  {
    forall f {:trigger Owned(t, f)} :: 0 <= f < m.PpnLimit() && !Free(s.gfa, f) && !Owned(t, f) ==>
      s'.mem[f] == s.mem[f]
  }

  /** `t'` adds to `t` only tables taken from the free frames, with plain links; nothing outside the
      tree and the free frames is written. */
  ghost predicate Kept(m: Mode, s: St, t: Tree, s': St, t': Tree) {
    && Space(m, s, t) && Space(m, s', t')
    && s'.gfa.end == s.gfa.end && s.gfa.ptr <= s'.gfa.ptr
    && (forall p :: p in t ==> p in t' && t'[p] == t[p])
    && (forall p :: p in t' && p !in t ==> Free(s.gfa, t'[p]))
    && (Plain(s.mem, t) ==> Plain(s'.mem, t'))
    && Confined(m, s, t, s')
  }

  lemma {:induction false} KeptTwice(m: Mode, s: St, t: Tree, s1: St, t1: Tree, s2: St, t2: Tree)
    requires Kept(m, s, t, s1, t1) && Kept(m, s1, t1, s2, t2)
    ensures Kept(m, s, t, s2, t2)
  {
    forall f | 0 <= f < m.PpnLimit() && !Free(s.gfa, f) && !Owned(t, f)
      ensures s2.mem[f] == s.mem[f]
    {
      assert !Owned(t1, f);
    }
  }

  /** Moreover the new tables lie on the way to `v`, above level `target`, and every frame handed out
      became one of them. */
  ghost predicate Extends(m: Mode, s: St, t: Tree, s': St, t': Tree, v: Vpn, target: nat) {
    && Kept(m, s, t, s', t') && s'.gfa.ptr + 4096 * |t| == s.gfa.ptr + 4096 * |t'|
    && forall p :: p in t' && p !in t ==> Suffix(v, p, target)
  }

  ghost predicate Grown(m: Mode, s: St, t: Tree, s': St, t': Tree, v: Vpn, target: nat) {
    Extends(m, s, t, s', t', v, target) && SameWalks(m, s.mem, s'.mem, t[[]])
  }

  lemma {:induction false} GrownTwice(m: Mode, s: St, t: Tree, s1: St, t1: Tree, s2: St, t2: Tree, v: Vpn, target: nat)
    requires Grown(m, s, t, s1, t1, v, target) && Grown(m, s1, t1, s2, t2, v, target)
    ensures Grown(m, s, t, s2, t2, v, target)
  {
    KeptTwice(m, s, t, s1, t1, s2, t2);
    forall w: Vpn {:trigger WalkRoot(m, s2.mem, t[[]], w)} | |w| == m.Levels()
      ensures WalkRoot(m, s2.mem, t[[]], w) == WalkRoot(m, s.mem, t[[]], w)
    {
      assert WalkRoot(m, s1.mem, t[[]], w) == WalkRoot(m, s.mem, t[[]], w);
    }
  }

  ghost predicate CanLink(m: Mode, s: St, t: Tree, v: Vpn, l: nat) {
    && Space(m, s, t) && 0 < l < |v| == m.Levels() && v[l + 1..] in t
    && !s.mem[t[v[l + 1..]]][v[l]].IsValid() && AllocFrames(s.gfa, 1).Some?
  }

  /** The state after the descent linked a new table below level `l`. */
  function LinkedSt(m: Mode, s: St, f: nat, i: Index): St
    requires f in s.mem && |s.mem[f]| == 512 && AllocFrames(s.gfa, 1).Some?
  {
    St(Link(m, s.mem, f, i, s.gfa.ptr / 4096), AllocFrames(s.gfa, 1).value.1)
  }

  lemma {:induction false} LinkAdds(m: Mode, s: St, t: Tree, v: Vpn, l: nat)
    requires CanLink(m, s, t, v, l)
    ensures var g := s.gfa.ptr / 4096;
            && Free(s.gfa, g)
            && CanAddTable(m, s.mem, t, v[l + 1..], v[l], g)
            && LinkedSt(m, s, t[v[l + 1..]], v[l]).mem == WithTable(s.mem, t, v[l + 1..], v[l], g)
  {
    assert Free(s.gfa, s.gfa.ptr / 4096);
  }

  lemma {:induction false} LinkSpace(m: Mode, s: St, t: Tree, v: Vpn, l: nat)
    requires CanLink(m, s, t, v, l)
    ensures v[l..] !in t
    ensures var s', t' := LinkedSt(m, s, t[v[l + 1..]], v[l]), t[v[l..] := s.gfa.ptr / 4096];
            Space(m, s', t') && (Plain(s.mem, t) ==> Plain(s'.mem, t'))
  {
    var p, i, g := v[l + 1..], v[l], s.gfa.ptr / 4096;
    LinkAdds(m, s, t, v, l);
    WithTableAdds(m, s.mem, t, p, i, g);
    AddTable(m, s.mem, WithTable(s.mem, t, p, i, g), t, p, i, g);
    assert [i] + p == v[l..];
    if Plain(s.mem, t) {
      AddTablePlain(m, s.mem, WithTable(s.mem, t, p, i, g), t, p, i, g);
    }
  }

  lemma {:induction false} LinkWalks(m: Mode, s: St, t: Tree, v: Vpn, l: nat)
    requires CanLink(m, s, t, v, l) && Ram(m, LinkedSt(m, s, t[v[l + 1..]], v[l]).mem)
    ensures SameWalks(m, s.mem, LinkedSt(m, s, t[v[l + 1..]], v[l]).mem, t[[]])
  {
    var p, i, g := v[l + 1..], v[l], s.gfa.ptr / 4096;
    var mem' := LinkedSt(m, s, t[p], i).mem;
    LinkAdds(m, s, t, v, l);
    WithTableAdds(m, s.mem, t, p, i, g);
    forall w: Vpn {:trigger WalkRoot(m, mem', t[[]], w)} | |w| == m.Levels()
      ensures WalkRoot(m, mem', t[[]], w) == WalkRoot(m, s.mem, t[[]], w)
    {
      assert w[|w|..] == [];
      AddTableWalk(m, s.mem, mem', t, p, i, g, w, |w| - 1);
    }
  }

  lemma {:induction false} LinkGrows(m: Mode, s: St, t: Tree, v: Vpn, l: nat, target: nat)
    requires CanLink(m, s, t, v, l) && target < l
    ensures v[l..] !in t
    ensures Grown(m, s, t, LinkedSt(m, s, t[v[l + 1..]], v[l]), t[v[l..] := s.gfa.ptr / 4096], v, target)
  {
    LinkAdds(m, s, t, v, l);
    LinkSpace(m, s, t, v, l);
    LinkWalks(m, s, t, v, l);
    assert v[|v| - |v[l..]|..] == v[l..];
  }

  lemma {:induction false} GrownNot(m: Mode, s: St, t: Tree, v: Vpn, target: nat)
    requires Space(m, s, t)
    ensures Grown(m, s, t, s, t, v, target)
  {
  }

  /** The outcome of the descent from level `l`, with `t'` the tree it leaves. */
  ghost predicate Descended(m: Mode, s: St, t: Tree, v: Vpn, l: nat, target: nat, t': Tree)
    requires Space(m, s, t) && target <= l < |v| == m.Levels() && v[l + 1..] in t
  {
    var (s', r) := Descend(m, s, t[v[l + 1..]], l, target, v);
    && Grown(m, s, t, s', t', v, target)
    && (r.Some? ==> v[target + 1..] in t' && r.value == t'[v[target + 1..]])
    && (r.None? ==> Exhausted(s'.gfa, 1))
  }

  /** Some tree makes this the outcome of the descent. */
  ghost predicate Descends(m: Mode, s: St, t: Tree, v: Vpn, l: nat, target: nat)
    requires Space(m, s, t) && target <= l < |v| == m.Levels() && v[l + 1..] in t
  {
    exists t' :: Descended(m, s, t, v, l, target, t')
  }

  lemma {:induction false} DescendLinks(m: Mode, s: St, t: Tree, v: Vpn, l: nat, target: nat, s1: St, g: nat)
    requires CanLink(m, s, t, v, l) && target < l && g == s.gfa.ptr / 4096
    requires s1 == LinkedSt(m, s, t[v[l + 1..]], v[l]) && StOk(m, s1) && g < m.PpnLimit()
    ensures Descend(m, s, t[v[l + 1..]], l, target, v) == Descend(m, s1, g, l - 1, target, v)
  {
  }

  lemma {:induction false} DescendedOn(m: Mode, s: St, t: Tree, v: Vpn, l: nat, target: nat, s1: St, t1: Tree)
    requires Space(m, s, t) && target < l < |v| == m.Levels() && v[l + 1..] in t && Space(m, s1, t1) && v[l..] in t1
    requires Descend(m, s, t[v[l + 1..]], l, target, v) == Descend(m, s1, t1[v[l..]], l - 1, target, v)
    requires Grown(m, s, t, s1, t1, v, target) && Descends(m, s1, t1, v, l - 1, target)
    ensures Descends(m, s, t, v, l, target)
  {
    var t' :| Descended(m, s1, t1, v, l - 1, target, t');
    GrownTwice(m, s, t, s1, t1, Descend(m, s1, t1[v[l..]], l - 1, target, v).0, t', v, target);
    assert Descended(m, s, t, v, l, target, t');
  }

  lemma {:induction false} DescendedPointer(m: Mode, s: St, t: Tree, v: Vpn, l: nat, target: nat)
    requires Space(m, s, t) && target < l < |v| == m.Levels() && v[l + 1..] in t && v[l..] in t
    requires s.mem[t[v[l + 1..]]][v[l]].IsPointer() && t[v[l..]] == s.mem[t[v[l + 1..]]][v[l]].ppn
    requires Descends(m, s, t, v, l - 1, target)
    ensures Descends(m, s, t, v, l, target)
  {
    assert Descend(m, s, t[v[l + 1..]], l, target, v) == Descend(m, s, t[v[l..]], l - 1, target, v);
    var t' :| Descended(m, s, t, v, l - 1, target, t');
    assert Descended(m, s, t, v, l, target, t');
  }

  lemma {:induction false} DescendedHere(m: Mode, s: St, t: Tree, v: Vpn, l: nat, target: nat)
    requires Space(m, s, t) && target <= l < |v| == m.Levels() && v[l + 1..] in t
    requires target == l || (!s.mem[t[v[l + 1..]]][v[l]].IsValid() && AllocFrames(s.gfa, 1).None?)
    ensures Descends(m, s, t, v, l, target)
  {
    GrownNot(m, s, t, v, target);
    assert Descended(m, s, t, v, l, target, t);
  }

  /** Linking a table on the way leads nowhere yet. */
  lemma {:induction false} LinkLevel(m: Mode, s: St, t: Tree, v: Vpn, l: nat, target: nat) returns (s1: St, t1: Tree)
    requires CanLink(m, s, t, v, l) && target < l
    ensures Grown(m, s, t, s1, t1, v, target) && v[l..] in t1 && Walk(m, s1.mem, t1[v[l..]], l - 1, v).Miss?
    ensures Descend(m, s, t[v[l + 1..]], l, target, v) == Descend(m, s1, t1[v[l..]], l - 1, target, v)
  {
    s1, t1 := LinkedSt(m, s, t[v[l + 1..]], v[l]), t[v[l..] := s.gfa.ptr / 4096];
    LinkGrows(m, s, t, v, l, target);
    DescendLinks(m, s, t, v, l, target, s1, t1[v[l..]]);
  }

  lemma {:induction false} DescendsOn(m: Mode, s: St, t: Tree, v: Vpn, l: nat, target: nat)
    requires Space(m, s, t) && target <= l < |v| == m.Levels() && v[l + 1..] in t
    requires var h := Walk(m, s.mem, t[v[l + 1..]], l, v); h.Hit? ==> h.level <= target
    ensures Descends(m, s, t, v, l, target)
    decreases l
  {
    if target == l {
      DescendedHere(m, s, t, v, l, target);
    } else if s.mem[t[v[l + 1..]]][v[l]].IsValid() {
      PointerStep(m, s.mem, t, v, l);
      DescendsOn(m, s, t, v, l - 1, target);
      DescendedPointer(m, s, t, v, l, target);
    } else if AllocFrames(s.gfa, 1).Some? {
      var s1, t1 := LinkLevel(m, s, t, v, l, target);
      DescendsOn(m, s1, t1, v, l - 1, target);
      DescendedOn(m, s, t, v, l, target, s1, t1);
    } else {
      DescendedHere(m, s, t, v, l, target);
    }
  }

  lemma {:induction false} DescendGrows(m: Mode, s: St, t: Tree, v: Vpn, l: nat, target: nat) returns (t': Tree)
    requires Space(m, s, t) && target <= l < |v| == m.Levels() && v[l + 1..] in t
    requires var h := Walk(m, s.mem, t[v[l + 1..]], l, v); h.Hit? ==> h.level <= target
    ensures Descended(m, s, t, v, l, target, t')
  {
    DescendsOn(m, s, t, v, l, target);
    t' :| Descended(m, s, t, v, l, target, t');
  }

  // ---------- map refines function update ----------

  /** No leaf of a level above `target` lies on the way to `v`. */
  ghost predicate NoLargerLeaf(m: Mode, mem: Frames, root: nat, v: Vpn, target: nat)
    requires Ram(m, mem) && root < m.PpnLimit() && |v| == m.Levels()
  {
    var h := WalkRoot(m, mem, root, v);
    h.Hit? ==> h.level <= target
  }

  /** Exactly the addresses of the level `target` page of `v` now lead to the leaf `e`. */
  ghost predicate Redirected(m: Mode, mem: Frames, mem': Frames, root: nat, v: Vpn, target: nat, f: nat, e: Entry)
    requires Ram(m, mem) && Ram(m, mem') && root < m.PpnLimit() && target < |v| == m.Levels()
  {
    forall w: Vpn {:trigger WalkRoot(m, mem', root, w)} :: |w| == m.Levels() ==>
      WalkRoot(m, mem', root, w) == if w[target..] == v[target..] then Hit(f, target, e) else WalkRoot(m, mem, root, w)
  }

  lemma {:induction false} ThroughSuffix(m: Mode, v: Vpn, w: Vpn, k: nat)
    requires k < |v| == |w| == m.Levels()
    ensures Through(m, w, v[k + 1..], v[k]) <==> w[k..] == v[k..]
  {
    assert w[k..] == [w[k]] + w[k + 1..] && v[k..] == [v[k]] + v[k + 1..];
    if w[k..] == v[k..] {
      assert w[k..][1..] == w[k + 1..] && v[k..][1..] == v[k + 1..];
      assert w[k..][0] == w[k] && v[k..][0] == v[k];
    }
  }

  /** A leaf written below a table of the tree redirects the page and keeps the rest. */
  lemma {:induction false} PutRedirects(m: Mode, s: St, t: Tree, v: Vpn, target: nat, e: Entry)
    requires Space(m, s, t) && target < |v| == m.Levels() && v[target + 1..] in t
    requires CanSetLeaf(m, s.mem, t, v[target + 1..], v[target], e)
    ensures var s' := s.(mem := Put(s.mem, t[v[target + 1..]], v[target], e));
            Extends(m, s, t, s', t, v, target) && Redirected(m, s.mem, s'.mem, t[[]], v, target, t[v[target + 1..]], e)
  {
    var p, i := v[target + 1..], v[target];
    var mem' := Put(s.mem, t[p], i, e);
    PutSetsLeaf(m, s.mem, t, p, i, e);
    SetLeaf(m, s.mem, mem', t, p, i, e);
    if Plain(s.mem, t) {
      SetLeafPlain(m, s.mem, mem', t, p, i, e);
    }
    forall w: Vpn {:trigger WalkRoot(m, mem', t[[]], w)} | |w| == m.Levels()
      ensures WalkRoot(m, mem', t[[]], w)
              == if w[target..] == v[target..] then Hit(t[p], target, e) else WalkRoot(m, s.mem, t[[]], w)
    {
      SetLeafWalk(m, s.mem, mem', t, p, i, e, w);
      ThroughSuffix(m, v, w, target);
    }
  }

  lemma {:induction false} RedirectGrown(m: Mode, s: St, t: Tree, s1: St, t1: Tree, s2: St, v: Vpn, target: nat, f: nat,
      e: Entry)
    requires target < |v| == m.Levels()
    requires Grown(m, s, t, s1, t1, v, target) && Extends(m, s1, t1, s2, t1, v, target)
    requires Redirected(m, s1.mem, s2.mem, t1[[]], v, target, f, e)
    ensures Extends(m, s, t, s2, t1, v, target) && Redirected(m, s.mem, s2.mem, t[[]], v, target, f, e)
  {
    KeptTwice(m, s, t, s1, t1, s2, t1);
    forall w: Vpn {:trigger WalkRoot(m, s2.mem, t[[]], w)} | |w| == m.Levels()
      ensures WalkRoot(m, s2.mem, t[[]], w)
              == if w[target..] == v[target..] then Hit(f, target, e) else WalkRoot(m, s.mem, t[[]], w)
    {
      assert WalkRoot(m, s1.mem, t[[]], w) == WalkRoot(m, s.mem, t[[]], w);
    }
  }

  /** A leaf of a table on the way of `v` is what the walk of `v` finds. */
  lemma {:induction false} LeafIsHit(m: Mode, mem: Frames, t: Tree, v: Vpn, k: nat, l: nat)
    requires Wf(m, mem, t) && k <= l < |v| == m.Levels() && v[k + 1..] in t && v[l + 1..] in t
    requires mem[t[v[k + 1..]]][v[k]].IsValid() && mem[t[v[k + 1..]]][v[k]].IsLeaf()
    ensures Walk(m, mem, t[v[l + 1..]], l, v) == Hit(t[v[k + 1..]], k, mem[t[v[k + 1..]]][v[k]])
  {
    if k < l {
      OnTheWay(m, mem, t, v[k + 1..], v, l);
      PointerStep(m, mem, t, v, l);
      LeafIsHit(m, mem, t, v, k, l - 1);
    }
  }

  /** The entry of level `target` for `v` is taken: it is a pointer, or a leaf with other flags. */
  ghost predicate Blocked(m: Mode, mem: Frames, t: Tree, v: Vpn, target: nat, flags: Flags)
    requires Wf(m, mem, t) && target < |v| == m.Levels()
  {
    || v[target..] in t
    || var h := WalkRoot(m, mem, t[[]], v); h.Hit? && h.level == target && h.entry.flags != flags + {VALID}
  }

  /** The effect of `map` from state `s` and tree `t` to `s'` and `t'`: Ok makes exactly the page
      lead to the new leaf, an error changes no walk, and either way the tree stays well formed. */
  ghost predicate MapEffect(m: Mode, s: St, t: Tree, s': St, t': Tree, r: MapResult, v: Vpn, ppn: nat, target: nat,
      flags: Flags)
    requires target < |v| == m.Levels()
  {
    && Extends(m, s, t, s', t', v, target)
    && (r.Ok? ==>
          && v[target + 1..] in t'
          && Redirected(m, s.mem, s'.mem, t[[]], v, target, t'[v[target + 1..]],
            Entry(MaskPpn(m, ppn), flags + {VALID})))
    && (r.Err? ==> SameWalks(m, s.mem, s'.mem, t[[]]))
    && (r == Err(AllocationFailed) ==> Exhausted(s'.gfa, 1))
    && (r == Err(AlreadyMapped) <==> Blocked(m, s.mem, t, v, target, flags))
    && r != Err(CorruptedPageTable)
  }

  /** The leaf write at the end of `map`, when the entry is free or holds the same flags. */
  lemma {:induction false} MapWrites(m: Mode, s: St, t: Tree, s1: St, t1: Tree, v: Vpn, ppn: nat, target: nat,
      flags: Flags)
    requires target < |v| == m.Levels() && Grown(m, s, t, s1, t1, v, target) && v[target + 1..] in t1
    requires Maps(flags) && MaskPpn(m, ppn) % Span(target) == 0
    requires var e := s1.mem[t1[v[target + 1..]]][v[target]]; e.IsValid() ==> e.flags == flags + {VALID}
    ensures var f := t1[v[target + 1..]];
            var e := Entry(MaskPpn(m, ppn), flags + {VALID});
            var s2 := s1.(mem := Put(s1.mem, f, v[target], e));
            && s1.mem[f][v[target]].WriteFlags(flags + {VALID}).SetPpn(m, ppn) == e
            && Extends(m, s, t, s2, t1, v, target)
            && Redirected(m, s.mem, s2.mem, t[[]], v, target, f, e)
  {
    var p := v[target + 1..];
    var e := Entry(MaskPpn(m, ppn), flags + {VALID});
    assert EntryOk(m, t1, p, v[target], s1.mem[t1[p]][v[target]]);
    PutRedirects(m, s1, t1, v, target, e);
    RedirectGrown(m, s, t, s1, t1, s1.(mem := Put(s1.mem, t1[p], v[target], e)), v, target, t1[p], e);
  }

  /** Refusal: the entry is a pointer, or a leaf with other flags. */
  lemma {:induction false} MapRefuses(m: Mode, s: St, t: Tree, s1: St, t1: Tree, v: Vpn, target: nat)
    requires target < |v| == m.Levels() && Grown(m, s, t, s1, t1, v, target) && v[target + 1..] in t1
    requires s1.mem[t1[v[target + 1..]]][v[target]].IsValid()
    ensures v[target..] in t || WalkRoot(m, s.mem, t[[]], v)
        == Hit(t1[v[target + 1..]], target, s1.mem[t1[v[target + 1..]]][v[target]])
  {
    var p := v[target + 1..];
    assert v[|v|..] == [] && [v[target]] + p == v[target..];
    assert EntryOk(m, t1, p, v[target], s1.mem[t1[p]][v[target]]);
    if s1.mem[t1[p]][v[target]].IsLeaf() {
      LeafIsHit(m, s1.mem, t1, v, target, |v| - 1);
      assert WalkRoot(m, s1.mem, t[[]], v) == WalkRoot(m, s.mem, t[[]], v);
    }
  }

  /** Where the tables are there already, the descent allocates nothing. */
  lemma {:induction false} DescendFinds(m: Mode, s: St, t: Tree, v: Vpn, l: nat, target: nat)
    requires Space(m, s, t) && target <= l < |v| == m.Levels() && v[l + 1..] in t && v[target + 1..] in t
    ensures Descend(m, s, t[v[l + 1..]], l, target, v) == (s, Some(t[v[target + 1..]]))
    decreases l
  {
    if target < l {
      OnTheWay(m, s.mem, t, v[target + 1..], v, l);
      PointerStep(m, s.mem, t, v, l);
      DescendFinds(m, s, t, v, l - 1, target);
    }
  }

  /** A taken entry is found by the descent, and is valid with other flags. */
  lemma {:induction false} BlockedFound(m: Mode, s: St, t: Tree, v: Vpn, target: nat, flags: Flags)
    requires Space(m, s, t) && target < |v| == m.Levels() && Maps(flags) && Blocked(m, s.mem, t, v, target, flags)
    ensures v[target + 1..] in t
    ensures var e := s.mem[t[v[target + 1..]]][v[target]]; e.IsValid() && e.flags != flags + {VALID}
  {
    assert v[|v|..] == [];
    if v[target..] in t {
      assert v[target..][1..] == v[target + 1..] && v[target..][0] == v[target];
      assert Linked(s.mem, t, v[target..]);
    } else {
      HitTable(m, s.mem, t, v, |v| - 1);
    }
  }

  /** `map` refines function update on a well-formed tree with no larger leaf above the page. */
  lemma {:induction false} MapRefines(m: Mode, s: St, t: Tree, v: Vpn, ppn: nat, target: nat,
      flags: Flags) returns (s': St, r: MapResult, t': Tree)
    requires Space(m, s, t) && target < |v| == m.Levels()
    requires NoLargerLeaf(m, s.mem, t[[]], v, target)
    requires Maps(flags) && MaskPpn(m, ppn) % Span(target) == 0
    ensures (s', r) == MapPage(m, s, t[[]], v, ppn, target, flags)
    ensures MapEffect(m, s, t, s', t', r, v, ppn, target, flags)
  {
    assert v[|v|..] == [];
    t' := DescendGrows(m, s, t, v, |v| - 1, target);
    var (s1, table) := Descend(m, s, t[[]], |v| - 1, target, v);
    if Blocked(m, s.mem, t, v, target, flags) {
      BlockedFound(m, s, t, v, target, flags);
      DescendFinds(m, s, t, v, |v| - 1, target);
    }
    if table.None? {
      return s1, Err(AllocationFailed), t';
    }
    var e := s1.mem[table.value][v[target]];
    if e.IsValid() && e.flags != flags + {VALID} {
      MapRefuses(m, s, t, s1, t', v, target);
      return s1, Err(AlreadyMapped), t';
    }
    MapWrites(m, s, t, s1, t', v, ppn, target, flags);
    return s1.(mem := Put(s1.mem, table.value, v[target], e.WriteFlags(flags + {VALID}).SetPpn(m, ppn))), Ok, t';
  }

  // ---------- exactly when map maps ----------

  lemma {:induction false} DescendKeeps(m: Mode, s: St, d: nat, l: nat, target: nat, v: Vpn, f: nat, i: Index)
    requires StOk(m, s) && d < m.PpnLimit() && target <= l < |v|
    requires f < m.PpnLimit() && !Free(s.gfa, f) && s.mem[f][i].IsValid()
    ensures Descend(m, s, d, l, target, v).0.mem[f][i] == s.mem[f][i]
    decreases l
  {
    if target < l {
      var e := s.mem[d][v[l]];
      if e.IsValid() {
        DescendKeeps(m, s, e.ppn, l - 1, target, v, f, i);
      } else if AllocFrames(s.gfa, 1).Some? {
        assert Free(s.gfa, s.gfa.ptr / 4096);
        DescendKeeps(m, LinkedSt(m, s, d, v[l]), s.gfa.ptr / 4096, l - 1, target, v, f, i);
      }
    }
  }

  /** A valid leaf stays a valid leaf, a pointer stays itself. */
  predicate SameKind(e: Entry, e': Entry) {
    if e.IsPointer() then e' == e else e.IsValid() ==> e'.IsValid() && e'.IsLeaf()
  }

  /** `map` never turns a valid entry into one of another kind. */
  lemma {:induction false} MapKeeps(m: Mode, s: St, root: nat, v: Vpn, ppn: nat, target: nat, flags: Flags, f: nat,
      i: Index)
    requires StOk(m, s) && root < m.PpnLimit() && target < |v| == m.Levels() && Maps(flags)
    requires f < m.PpnLimit() && !Free(s.gfa, f) && s.mem[f][i].IsValid()
    ensures SameKind(s.mem[f][i], MapPage(m, s, root, v, ppn, target, flags).0.mem[f][i])
  {
    DescendKeeps(m, s, root, |v| - 1, target, v, f, i);
  }

  lemma {:induction false} LeafStays(m: Mode, mem: Frames, mem': Frames, t: Tree, v: Vpn, l: nat)
    requires Wf(m, mem, t) && Ram(m, mem') && l < |v| == m.Levels() && v[l + 1..] in t
    requires forall p, i: Index :: p in t ==> SameKind(mem[t[p]][i], mem'[t[p]][i])
    requires Walk(m, mem, t[v[l + 1..]], l, v).Hit?
    ensures var h := Walk(m, mem', t[v[l + 1..]], l, v); h.Hit? && h.level == Walk(m, mem, t[v[l + 1..]], l, v).level
  {
    if mem[t[v[l + 1..]]][v[l]].IsPointer() {
      PointerStep(m, mem, t, v, l);
      LeafStays(m, mem, mem', t, v, l - 1);
    }
  }

  /** `map` follows a larger leaf as if it were a table, so it maps the page if and only if no
      larger leaf lies above it.  (`MapRefines` has the rest of the effect.) */
  lemma {:induction false} MapsIffNoLargerLeaf(m: Mode, s: St, t: Tree, v: Vpn, ppn: nat, target: nat, flags: Flags)
    requires Space(m, s, t) && target < |v| == m.Levels()
    requires Maps(flags) && MaskPpn(m, ppn) % Span(target) == 0
    requires MapPage(m, s, t[[]], v, ppn, target, flags).1.Ok?
    ensures var h := WalkRoot(m, MapPage(m, s, t[[]], v, ppn, target, flags).0.mem, t[[]], v);
            (h.Hit? && h.level == target && h.entry == Entry(MaskPpn(m, ppn), flags + {VALID}))
            <==> NoLargerLeaf(m, s.mem, t[[]], v, target)
  {
    if NoLargerLeaf(m, s.mem, t[[]], v, target) {
      var s', r, t' := MapRefines(m, s, t, v, ppn, target, flags);
    } else {
      var mem' := MapPage(m, s, t[[]], v, ppn, target, flags).0.mem;
      forall p, i: Index | p in t
        ensures SameKind(s.mem[t[p]][i], mem'[t[p]][i])
      {
        if s.mem[t[p]][i].IsValid() {
          MapKeeps(m, s, t[[]], v, ppn, target, flags, t[p], i);
        }
      }
      assert v[|v|..] == [];
      LeafStays(m, s.mem, mem', t, v, |v| - 1);
    }
  }

  /** A frame of a memory whose root, in frame 1, holds one 1 GiB leaf; all else is empty. */
  function OneLeafFrame(f: nat): Table {
    if f == 1 then EmptyTable()[0 := Entry(0x4_0000, {VALID, READ})] else EmptyTable()
  }

  ghost predicate OneLeaf(mem: Frames) {
    forall f {:trigger f in mem} {:trigger mem[f]} :: 0 <= f < 0x400_0000 ==> f in mem && mem[f] == OneLeafFrame(f)
  }

  lemma {:induction false} OneLeafSpace(mem: Frames)
    requires OneLeaf(mem)
    ensures Space(Sv39, St(mem, Gfa(0, 0)), map[[] := 1])
  {
    var t: Tree := map[[] := 1];
    assert Span(2) == 512 * Span(1) && Span(1) == 512 * Span(0);
    forall p, i: Index {:trigger EntryOk(Sv39, t, p, i, mem[t[p]][i])} | p in t
      ensures EntryOk(Sv39, t, p, i, mem[t[p]][i])
    {
      assert mem[1] == OneLeafFrame(1);
    }
    forall p, q {:trigger Apart(t, p, q)} | p in t && q in t
      ensures Apart(t, p, q)
    {
    }
  }

  /** Mapping a 2 MiB page below that leaf reports Ok, and the 1 GiB leaf still decides. */
  lemma {:induction false} OkUnderLargerLeaf(v: Vpn) returns (s: St, t: Tree)
    requires |v| == 3 && v[2] == 0
    ensures Space(Sv39, s, t) && !NoLargerLeaf(Sv39, s.mem, t[[]], v, 1)
    ensures var (s', r) := MapPage(Sv39, s, t[[]], v, 512, 1, {READ});
            r.Ok? && WalkRoot(Sv39, s'.mem, t[[]], v) == WalkRoot(Sv39, s.mem, t[[]], v)
  {
    var mem := map f: nat | f < 0x400_0000 :: OneLeafFrame(f);
    OneLeafSpace(mem);
    s, t := St(mem, Gfa(0, 0)), map[[] := 1];
    assert mem[1] == OneLeafFrame(1) && mem[0x4_0000] == OneLeafFrame(0x4_0000);
    assert NextTable(Sv39, s, 1, v[2]) == (s, Some(0x4_0000));
    assert Descend(Sv39, s, 1, 2, 1, v) == Descend(Sv39, s, 0x4_0000, 1, 1, v);
  }
}
