/** `get_pte_ptr` and `update_mapping`: changing the flags of existing leaves. */
module Update {
  import opened Arith
  import opened Paging
  import opened Addr
  import opened Mapping

  /** The loop of `get_pte_ptr`: unlike `Walk`, it returns any valid entry at level 0. */
  function FindPte(m: Mode, mem: Frames, f: nat, l: nat, v: Vpn): (h: Hit)
    requires Ram(m, mem) && f < m.PpnLimit() && l < |v|
    ensures h.Hit? ==> h.frame < m.PpnLimit() && h.level <= l
    ensures h.Hit? ==> h.entry == mem[h.frame][v[h.level]] && h.entry.IsValid()
    decreases l
  {
    var e := mem[f][v[l]];
    if !e.IsValid() then Miss
    else if e.IsLeaf() || l == 0 then Hit(f, l, e)
    else FindPte(m, mem, e.ppn, l - 1, v)
  }

  /** An entry on the way of `v` is not valid. */
  predicate Broken(m: Mode, mem: Frames, f: nat, l: nat, v: Vpn)
    requires Ram(m, mem) && f < m.PpnLimit() && l < |v|
    decreases l
  {
    var e := mem[f][v[l]];
    !e.IsValid() || (!e.IsLeaf() && l > 0 && Broken(m, mem, e.ppn, l - 1, v))
  }

  /** On every memory `get_pte_ptr` fails exactly if an entry on the way is not valid; otherwise it finds the
      leaf of the address or, without one, the entry of level 0 that is none. */
  lemma {:induction false} FindPteIff(m: Mode, mem: Frames, f: nat, l: nat, v: Vpn)
    requires Ram(m, mem) && f < m.PpnLimit() && l < |v|
    ensures var h, k := FindPte(m, mem, f, l, v), Walk(m, mem, f, l, v);
      && (h.Miss? <==> Broken(m, mem, f, l, v)) && (k.Hit? ==> h == k)
      && (k.Miss? && h.Hit? ==> h.level == 0 && !h.entry.IsLeaf())
    decreases l
  {
    var e := mem[f][v[l]];
    if e.IsPointer() && l > 0 {
      FindPteIff(m, mem, e.ppn, l - 1, v);
    }
  }

  /** On a well-formed tree `get_pte_ptr` finds an entry exactly when the address translates,
      and it is the leaf the translation uses. */
  lemma {:induction false} FindPteIsWalk(m: Mode, mem: Frames, t: Tree, v: Vpn, l: nat)
    requires Wf(m, mem, t) && l < |v| == m.Levels() && v[l + 1..] in t
    ensures FindPte(m, mem, t[v[l + 1..]], l, v) == Walk(m, mem, t[v[l + 1..]], l, v)
  {
    if mem[t[v[l + 1..]]][v[l]].IsPointer() {
      PointerStep(m, mem, t, v, l);
      FindPteIsWalk(m, mem, t, v, l - 1);
    }
  }

  /** Page `j` of level 0 lies in the page of level `l` with this number. */
  function Up(j: nat, l: nat): nat {
    if l == 0 then j else Up(j, l - 1) / 512
  }

  lemma {:induction false} PageNoUp(w: Vpn, l: nat)
    requires l <= |w|
    ensures PageNo(w, l) == Up(PageNo(w, 0), l)
  {
    if l > 0 {
      PageNoUp(w, l - 1);
      assert w[l - 1..][1..] == w[l..];
    }
  }

  predicate Within(j: nat, l: nat, n: nat) {
    Up(j, l) == n
  }

  /** One of the `k` pages from `first` on lies in the page of level `l` around `w`. */
  predicate Touched(w: Vpn, l: nat, first: nat, k: nat)
    requires l <= |w|
  {
    k > 0 && (Touched(w, l, first, k - 1) || Within(first + k - 1, l, PageNo(w, l)))
  }

  lemma {:induction false} TouchedIff(w: Vpn, l: nat, first: nat, k: nat)
    requires l <= |w|
    ensures Touched(w, l, first, k) <==> exists j :: first <= j < first + k && Within(j, l, PageNo(w, l))
  {
    if k > 0 {
      TouchedIff(w, l, first, k - 1);
      assert Touched(w, l, first, k) ==> Touched(w, l, first, k - 1) || Within(first + k - 1, l, PageNo(w, l));
    }
  }

  function Rewritten(h: Hit, touched: bool, flags: Flags): Hit {
    if h.Hit? && touched then h.(entry := h.entry.WriteFlags(flags)) else h
  }

  /** Exactly the leaves around the `k` pages from `first` on have their flags rewritten. */
  ghost predicate FlagsUpdated(m: Mode, mem: Frames, mem': Frames, root: nat, first: nat, k: nat, flags: Flags)
    requires Ram(m, mem) && Ram(m, mem') && root < m.PpnLimit()
  {
    forall w: Vpn {:trigger UpdatedAt(m, mem, mem', root, w, first, k, flags)} :: |w| == m.Levels() ==>
      UpdatedAt(m, mem, mem', root, w, first, k, flags)
  }

  ghost predicate UpdatedAt(m: Mode, mem: Frames, mem': Frames, root: nat, w: Vpn, first: nat, k: nat, flags: Flags)
    requires Ram(m, mem) && Ram(m, mem') && root < m.PpnLimit() && |w| == m.Levels()
  {
    var h := WalkRoot(m, mem, root, w);
    WalkRoot(m, mem', root, w) == Rewritten(h, h.Hit? && Touched(w, h.level, first, k), flags)
  }

  lemma {:induction false} WriteTwice(e: Entry, flags: Flags)
    ensures e.WriteFlags(flags).WriteFlags(flags) == e.WriteFlags(flags)
  {
    assert e.flags - RWXUG + flags - RWXUG + flags == e.flags - RWXUG + flags;
  }

  /** Rewriting the flags of the leaf around `v`. */
  lemma {:induction false} UpdateOne(m: Mode, s: St, t: Tree, v: Vpn, flags: Flags)
    requires Space(m, s, t) && |v| == m.Levels() && Maps(flags) && WalkRoot(m, s.mem, t[[]], v).Hit?
    ensures var h := WalkRoot(m, s.mem, t[[]], v);
            var s' := s.(mem := Put(s.mem, h.frame, v[h.level], h.entry.WriteFlags(flags)));
            && Kept(m, s, t, s', t)
            && Redirected(m, s.mem, s'.mem, t[[]], v, h.level, h.frame, h.entry.WriteFlags(flags))
  {
    assert v[|v|..] == [];
    HitTable(m, s.mem, t, v, |v| - 1);
    var h := WalkRoot(m, s.mem, t[[]], v);
    PutRedirects(m, s, t, v, h.level, h.entry.WriteFlags(flags));
  }

  /** One more page for an update that rewrote the leaves around `k` pages. */
  lemma {:induction false} UpdateJoin(m: Mode, mem: Frames, mem1: Frames, mem2: Frames, root: nat, first: nat, k: nat,
      v: Vpn, flags: Flags)
    requires Ram(m, mem) && Ram(m, mem1) && Ram(m, mem2) && root < m.PpnLimit() && |v| == m.Levels()
    requires FlagsUpdated(m, mem, mem1, root, first, k, flags) && PageNo(v, 0) == first + k
    requires var h := WalkRoot(m, mem1, root, v);
             h.Hit? && Redirected(m, mem1, mem2, root, v, h.level, h.frame, h.entry.WriteFlags(flags))
    ensures FlagsUpdated(m, mem, mem2, root, first, k + 1, flags)
  {
    var g := WalkRoot(m, mem1, root, v);
    forall w: Vpn {:trigger UpdatedAt(m, mem, mem2, root, w, first, k + 1, flags)} | |w| == m.Levels()
      ensures UpdatedAt(m, mem, mem2, root, w, first, k + 1, flags)
    {
      assert UpdatedAt(m, mem, mem1, root, w, first, k, flags);
      UpdateJoinAt(m, mem, mem1, mem2, root, first, k, v, flags, w);
    }
  }

  lemma {:induction false} UpdateJoinAt(m: Mode, mem: Frames, mem1: Frames, mem2: Frames, root: nat, first: nat, k: nat,
      v: Vpn, flags: Flags, w: Vpn)
    requires Ram(m, mem) && Ram(m, mem1) && Ram(m, mem2) && root < m.PpnLimit() && |v| == |w| == m.Levels()
    requires UpdatedAt(m, mem, mem1, root, w, first, k, flags) && PageNo(v, 0) == first + k
    requires var h := WalkRoot(m, mem1, root, v);
             h.Hit? && Redirected(m, mem1, mem2, root, v, h.level, h.frame, h.entry.WriteFlags(flags))
    ensures UpdatedAt(m, mem, mem2, root, w, first, k + 1, flags)
  {
    var g, h := WalkRoot(m, mem1, root, v), WalkRoot(m, mem1, root, w);
    assert WalkRoot(m, mem2, root, w)
        == if w[g.level..] == v[g.level..] then Hit(g.frame, g.level, g.entry.WriteFlags(flags)) else h;
    if w[g.level..] == v[g.level..] {
      WalkShared(m, mem1, root, |v| - 1, w, v);
      PageNoUp(v, g.level);
      WriteTwice(WalkRoot(m, mem, root, w).entry, flags);
    } else if h.Hit? && Up(first + k, h.level) == PageNo(w, h.level) {
      PageNoUp(v, h.level);
      PageNoSame(v, w, h.level);
      WalkShared(m, mem1, root, |v| - 1, v, w);
    }
  }

  /** Only tables of the tree are written. */
  ghost predicate OnlyTree(m: Mode, mem: Frames, mem': Frames, t: Tree)
    requires Ram(m, mem) && Ram(m, mem')
  {
    forall f {:trigger Owned(t, f)} :: 0 <= f < m.PpnLimit() && !Owned(t, f) ==> mem'[f] == mem[f]
  }

  /** The outcome of `update_mapping` after `k` pages from `first` on. */
  ghost predicate UpdateEffect(m: Mode, mem: Frames, mem': Frames, t: Tree, first: nat, k: nat, flags: Flags) {
    && Wf(m, mem, t) && Wf(m, mem', t) && (Plain(mem, t) ==> Plain(mem', t))
    && OnlyTree(m, mem, mem', t) && FlagsUpdated(m, mem, mem', t[[]], first, k, flags)
  }

  /** The `n` pages from `first` on are mapped. */
  ghost predicate Mapped(m: Mode, mem: Frames, root: nat, first: nat, n: nat)
    requires Ram(m, mem) && root < m.PpnLimit()
  {
    forall v: Vpn {:trigger WalkRoot(m, mem, root, v)} :: |v| == m.Levels() && first <= PageNo(v, 0) < first + n ==>
      WalkRoot(m, mem, root, v).Hit?
  }

  /** Whether the next page is mapped is not affected by the pages updated before it. */
  lemma {:induction false} MappedStep(m: Mode, mem: Frames, mem1: Frames, root: nat, first: nat, k: nat, flags: Flags,
      v: Vpn)
    requires Ram(m, mem) && Ram(m, mem1) && root < m.PpnLimit() && |v| == m.Levels() && PageNo(v, 0) == first + k
    requires FlagsUpdated(m, mem, mem1, root, first, k, flags) && Mapped(m, mem, root, first, k)
    ensures Mapped(m, mem, root, first, k + 1) <==> WalkRoot(m, mem1, root, v).Hit?
  {
    assert UpdatedAt(m, mem, mem1, root, v, first, k, flags);
    forall w: Vpn {:trigger WalkRoot(m, mem, root, w)} | |w| == m.Levels() && first + k <= PageNo(w, 0) < first + k + 1
      ensures w == v
    {
      PageNoSame(v, w, 0);
      assert v[0..] == v && w[0..] == w;
    }
  }

  lemma {:induction false} UpdateNone(m: Mode, mem: Frames, t: Tree, first: nat, flags: Flags)
    requires Wf(m, mem, t)
    ensures UpdateEffect(m, mem, mem, t, first, 0, flags)
  {
  }

  /** The next page of an `update_mapping` loop: its leaf is rewritten. */
  lemma {:induction false} UpdateStep(m: Mode, mem: Frames, mem1: Frames, t: Tree, first: nat, k: nat, flags: Flags,
      v: Vpn, h: Hit)
    requires UpdateEffect(m, mem, mem1, t, first, k, flags) && Maps(flags) && |v| == m.Levels()
    requires PageNo(v, 0) == first + k
    requires h == WalkRoot(m, mem1, t[[]], v) && h.Hit?
    ensures UpdateEffect(m, mem, Put(mem1, h.frame, v[h.level], h.entry.WriteFlags(flags)), t, first, k + 1, flags)
  {
    var s, mem2 := St(mem1, Gfa(0, 0)), Put(mem1, h.frame, v[h.level], h.entry.WriteFlags(flags));
    assert Space(m, s, t);
    UpdateOne(m, s, t, v, flags);
    assert Confined(m, s, t, St(mem2, Gfa(0, 0)));
    UpdateJoin(m, mem, mem1, mem2, t[[]], first, k, v, flags);
  }

  /** The loop of `update_mapping` from page `i` on: the memory it leaves, its result, and the number of
      pages done before it stopped. */
  function UpdatePages(m: Mode, mem: Frames, root: nat, va: nat, i: nat, n: nat,
      flags: Flags): (r: (Frames, MapResult, nat))
    requires Ram(m, mem) && root < m.PpnLimit()
    ensures Ram(m, r.0)
    decreases n - i
  {
    if i >= n then (mem, Ok, i)
    else
      var v := VpnOf(m, va + Times(i, Size(0)));
      match FindPte(m, mem, root, m.Levels() - 1, v)
      case Miss => (mem, Err(CorruptedPageTable), i)
      case Hit(f, l, e) => UpdatePages(m, Put(mem, f, v[l], e.WriteFlags(flags)), root, va, i + 1, n, flags)
  }

  /** One turn of the loop. */
  lemma {:induction false} UpdateTurn(m: Mode, mem: Frames, root: nat, va: nat, i: nat, n: nat, flags: Flags, v: Vpn,
      h: Hit, mem1: Frames)
    requires Ram(m, mem) && root < m.PpnLimit() && i < n && v == VpnOf(m, va + Times(i, Size(0)))
    requires h == FindPte(m, mem, root, m.Levels() - 1, v) && h.Hit?
    requires mem1 == Put(mem, h.frame, v[h.level], h.entry.WriteFlags(flags))
    ensures Ram(m, mem1) && UpdatePages(m, mem, root, va, i, n, flags)
        == UpdatePages(m, mem1, root, va, i + 1, n, flags)
  {
  }

  /** `run` is the loop, from any memory and page on. */
  ghost predicate RunsAs(m: Mode, root: nat, va: nat, n: nat, flags: Flags,
      run: (Frames, nat) -> (Frames, MapResult, nat))
    requires root < m.PpnLimit()
  {
    forall mem: Frames, i: nat {:trigger UpdatePages(m, mem, root, va, i, n, flags)} ::
      Ram(m, mem) ==> run(mem, i) == UpdatePages(m, mem, root, va, i, n, flags)
  }

  lemma {:induction false} LoopTurns(m: Mode, mem: Frames, root: nat, va: nat, i: nat, n: nat, flags: Flags,
      run: (Frames, nat) -> (Frames, MapResult, nat), v: Vpn, h: Hit)
    returns (mem1: Frames)
    requires root < m.PpnLimit() && RunsAs(m, root, va, n, flags, run) && Ram(m, mem) && i < n
    requires v == VpnOf(m, va + Times(i, Size(0))) && h == FindPte(m, mem, root, m.Levels() - 1, v) && h.Hit?
    ensures mem1 == Put(mem, h.frame, v[h.level], h.entry.WriteFlags(flags)) && Ram(m, mem1)
    ensures run(mem, i) == run(mem1, i + 1)
  {
    mem1 := Put(mem, h.frame, v[h.level], h.entry.WriteFlags(flags));
    UpdateTurn(m, mem, root, va, i, n, flags, v, h, mem1);
  }

  lemma {:induction false} LoopStops(m: Mode, mem: Frames, root: nat, va: nat, i: nat, n: nat, flags: Flags,
      run: (Frames, nat) -> (Frames, MapResult, nat), v: Vpn)
    requires root < m.PpnLimit() && RunsAs(m, root, va, n, flags, run) && Ram(m, mem)
    requires v == VpnOf(m, va + Times(i, Size(0))) && (i >= n || FindPte(m, mem, root, m.Levels() - 1, v).Miss?)
    ensures run(mem, i) == (mem, if i >= n then Ok else Err(CorruptedPageTable), i)
  {
    assert run(mem, i) == UpdatePages(m, mem, root, va, i, n, flags);
  }

  lemma {:induction false} LoopCounts(m: Mode, mem: Frames, root: nat, va: nat, i: nat, n: nat, flags: Flags,
      run: (Frames, nat) -> (Frames, MapResult, nat), v: Vpn)
    requires root < m.PpnLimit() && RunsAs(m, root, va, n, flags, run) && Ram(m, mem) && i <= n
    requires v == VpnOf(m, va + Times(i, Size(0)))
    ensures i <= run(mem, i).2 <= n && (run(mem, i).1.Ok? <==> run(mem, i).2 == n)
    ensures i < n && FindPte(m, mem, root, m.Levels() - 1, v).Hit? ==> i < run(mem, i).2
    decreases n - i
  {
    var h := FindPte(m, mem, root, m.Levels() - 1, v);
    if i < n && h.Hit? {
      var mem1 := LoopTurns(m, mem, root, va, i, n, flags, run, v, h);
      LoopCounts(m, mem1, root, va, i + 1, n, flags, run, VpnOf(m, va + Times(i + 1, Size(0))));
    } else {
      LoopStops(m, mem, root, va, i, n, flags, run, v);
    }
  }

  /** The count is the number of pages done, all of them exactly on Ok. */
  lemma {:induction false} UpdateCounts(m: Mode, mem: Frames, root: nat, va: nat, i: nat, n: nat, flags: Flags)
    requires Ram(m, mem) && root < m.PpnLimit() && i <= n
    ensures var (_, r, k) := UpdatePages(m, mem, root, va, i, n, flags);
            && i <= k <= n && (r.Ok? <==> k == n)
            && (i < n && FindPte(m, mem, root, m.Levels() - 1, VpnOf(m, va + Times(i, Size(0)))).Hit? ==> i < k)
  {
    var run := (x: Frames, j: nat) => if Ram(m, x) then UpdatePages(m, x, root, va, j, n, flags) else (x, Ok, j);
    assert run(mem, i) == UpdatePages(m, mem, root, va, i, n, flags);
    LoopCounts(m, mem, root, va, i, n, flags, run, VpnOf(m, va + Times(i, Size(0))));
  }

  /** Page `i` of a run of 4 KiB pages. */
  lemma {:induction false} NthUpdate(m: Mode, va: nat, i: nat, n: nat) returns (v: Vpn)
    requires i < n && Page(m, va, 0) + n <= Span(m.Levels())
    ensures v == VpnOf(m, va + Times(i, Size(0))) && PageNo(v, 0) == Page(m, va, 0) + i
  {
    v := VpnOf(m, va + Times(i, Size(0)));
    TimesIs(i, Size(0));
    PageAdd(m, va, i, 0);
    PageNoOf(m, va + Times(i, Size(0)), 0);
  }

  ghost predicate UpdateOutcome(m: Mode, mem: Frames, mem': Frames, t: Tree, first: nat, n: nat, k: nat, r: MapResult,
      flags: Flags) {
    && UpdateEffect(m, mem, mem', t, first, k, flags)
    && (if r.Ok? then k == n else r == Err(CorruptedPageTable) && k < n)
    && (r.Ok? <==> Mapped(m, mem, t[[]], first, n))
  }

  /** The whole loop, from where `i` pages are done, on a well-formed tree. */
  lemma {:induction false} UpdatePagesFrom(m: Mode, mem: Frames, mem1: Frames, t: Tree, va: nat, i: nat, n: nat,
      flags: Flags) returns (mem': Frames, r: MapResult, k: nat)
    requires Maps(flags) && i <= n && Page(m, va, 0) + n <= Span(m.Levels())
    requires UpdateEffect(m, mem, mem1, t, Page(m, va, 0), i, flags) && Mapped(m, mem, t[[]], Page(m, va, 0), i)
    ensures (mem', r, k) == UpdatePages(m, mem1, t[[]], va, i, n, flags)
    ensures UpdateOutcome(m, mem, mem', t, Page(m, va, 0), n, k, r, flags)
    decreases n - i
  {
    if i == n {
      return mem1, Ok, i;
    }
    var v := NthUpdate(m, va, i, n);
    var h := WalkRoot(m, mem1, t[[]], v);
    assert v[|v|..] == [];
    FindPteIsWalk(m, mem1, t, v, |v| - 1);
    MappedStep(m, mem, mem1, t[[]], Page(m, va, 0), i, flags, v);
    if h.Miss? {
      NotAllMapped(m, mem, t[[]], Page(m, va, 0), i + 1, n);
      return mem1, Err(CorruptedPageTable), i;
    }
    var mem2 := Put(mem1, h.frame, v[h.level], h.entry.WriteFlags(flags));
    UpdateStep(m, mem, mem1, t, Page(m, va, 0), i, flags, v, h);
    UpdateTurn(m, mem1, t[[]], va, i, n, flags, v, h, mem2);
    mem', r, k := UpdatePagesFrom(m, mem, mem2, t, va, i + 1, n, flags);
  }

  lemma {:induction false} NotAllMapped(m: Mode, mem: Frames, root: nat, first: nat, k: nat, n: nat)
    requires Ram(m, mem) && root < m.PpnLimit() && k <= n && !Mapped(m, mem, root, first, k)
    ensures !Mapped(m, mem, root, first, n)
  {
  }

  /** `update_mapping` on a well-formed tree, with some permission: it rewrites the leaves around its
      pages, and succeeds if and only if all of them are mapped. */
  lemma {:induction false} UpdatePagesRefines(m: Mode, mem: Frames, t: Tree, va: nat, n: nat,
      flags: Flags) returns (mem': Frames, r: MapResult, k: nat)
    requires Wf(m, mem, t) && Maps(flags) && Page(m, va, 0) + n <= Span(m.Levels())
    ensures (mem', r, k) == UpdatePages(m, mem, t[[]], va, 0, n, flags)
    ensures UpdateOutcome(m, mem, mem', t, Page(m, va, 0), n, k, r, flags)
  {
    UpdateNone(m, mem, t, Page(m, va, 0), flags);
    mem', r, k := UpdatePagesFrom(m, mem, mem, t, va, 0, n, flags);
  }

  // ---------- what an update means ----------

  /** Rewriting flags moves no address. */
  lemma {:induction false} UpdateKeepsTranslation(m: Mode, mem: Frames, mem': Frames, root: nat, first: nat, k: nat,
      flags: Flags, x: nat)
    requires Ram(m, mem) && Ram(m, mem') && root < m.PpnLimit()
    requires FlagsUpdated(m, mem, mem', root, first, k, flags)
    ensures VirtToPhys(m, mem', root, x) == VirtToPhys(m, mem, root, x)
  {
    assert UpdatedAt(m, mem, mem', root, VpnOf(m, x), first, k, flags);
  }

  /** A leaf that holds a page of the range loses R, W, X, U and G and gets the new flags; any other keeps its
      own. */
  lemma {:induction false} UpdateSetsFlags(m: Mode, mem: Frames, mem': Frames, root: nat, first: nat, k: nat,
      flags: Flags, w: Vpn)
    requires Ram(m, mem) && Ram(m, mem') && root < m.PpnLimit() && |w| == m.Levels()
    requires FlagsUpdated(m, mem, mem', root, first, k, flags)
    requires WalkRoot(m, mem, root, w).Hit?
    ensures var h, h' := WalkRoot(m, mem, root, w), WalkRoot(m, mem', root, w);
            && h'.Hit? && h'.frame == h.frame && h'.level == h.level && h'.entry.ppn == h.entry.ppn
            && (first <= PageNo(w, 0) < first + k ==>
                  h'.entry.flags == h.entry.flags - {READ, WRITE, EXEC, USER, GLOBAL} + flags)
            && h'.entry.flags == if exists j :: first <= j < first + k && Within(j, h.level, PageNo(w, h.level))
                                 then h.entry.flags - {READ, WRITE, EXEC, USER, GLOBAL} + flags else h.entry.flags
  {
    assert UpdatedAt(m, mem, mem', root, w, first, k, flags);
    var l := WalkRoot(m, mem, root, w).level;
    PageNoUp(w, l);
    TouchedIff(w, l, first, k);
    assert Within(PageNo(w, 0), l, PageNo(w, l));
  }

  // ---------- an update that takes every permission away ----------

  /** The entry stayed, or was valid and became a pointer to the same frame. */
  predicate Demoted(e: Entry, e': Entry) {
    e' == e || (e.IsValid() && e'.IsPointer() && e'.ppn == e.ppn)
  }

  ghost predicate AllDemoted(m: Mode, mem: Frames, mem': Frames)
    requires Ram(m, mem) && Ram(m, mem')
  {
    forall f, i: Index {:trigger mem'[f][i]} :: 0 <= f < m.PpnLimit() ==> Demoted(mem[f][i], mem'[f][i])
  }

  lemma {:induction false} PutDemotes(m: Mode, mem: Frames, f: nat, i: Index, flags: Flags, mem1: Frames)
    requires Ram(m, mem) && Ram(m, mem1) && f < m.PpnLimit() && mem[f][i].IsValid() && !Maps(flags)
    requires mem1 == Put(mem, f, i, mem[f][i].WriteFlags(flags))
    ensures AllDemoted(m, mem, mem1) && mem1[f][i].IsPointer()
  {
  }

  /** One turn of the loop without R, W and X. */
  lemma {:induction false} DemotingTurn(m: Mode, mem: Frames, root: nat, va: nat, i: nat, n: nat, flags: Flags,
      run: (Frames, nat) -> (Frames, MapResult, nat), v: Vpn, h: Hit)
    returns (mem1: Frames)
    requires root < m.PpnLimit() && RunsAs(m, root, va, n, flags, run)
    requires Ram(m, mem) && i < n && v == VpnOf(m, va + Times(i, Size(0))) && !Maps(flags)
    requires h == FindPte(m, mem, root, m.Levels() - 1, v) && h.Hit?
    ensures Ram(m, mem1) && run(mem, i) == run(mem1, i + 1)
    ensures AllDemoted(m, mem, mem1) && mem1[h.frame][v[h.level]].IsPointer()
  {
    mem1 := LoopTurns(m, mem, root, va, i, n, flags, run, v, h);
    PutDemotes(m, mem, h.frame, v[h.level], flags, mem1);
  }

  /** Without R, W and X the loop makes pointers of entries and never a leaf, on any memory. */
  lemma {:induction false} LoopDemotes(m: Mode, mem: Frames, root: nat, va: nat, i: nat, n: nat, flags: Flags,
      run: (Frames, nat) -> (Frames, MapResult, nat))
    requires root < m.PpnLimit() && RunsAs(m, root, va, n, flags, run) && Ram(m, mem) && !Maps(flags)
    ensures Ram(m, run(mem, i).0) && AllDemoted(m, mem, run(mem, i).0)
    decreases n - i
  {
    var v := VpnOf(m, va + Times(i, Size(0)));
    var h := FindPte(m, mem, root, m.Levels() - 1, v);
    if i < n && h.Hit? {
      var mem1 := DemotingTurn(m, mem, root, va, i, n, flags, run, v, h);
      LoopDemotes(m, mem1, root, va, i + 1, n, flags, run);
      DemotedTwice(m, mem, mem1, run(mem1, i + 1).0);
    } else {
      LoopStops(m, mem, root, va, i, n, flags, run, v);
    }
  }

  lemma {:induction false} DemotedTwice(m: Mode, mem: Frames, mem1: Frames, mem2: Frames)
    requires Ram(m, mem) && Ram(m, mem1) && Ram(m, mem2) && AllDemoted(m, mem, mem1) && AllDemoted(m, mem1, mem2)
    ensures AllDemoted(m, mem, mem2)
  {
    forall f, i: Index {:trigger mem2[f][i]} | 0 <= f < m.PpnLimit()
      ensures Demoted(mem[f][i], mem2[f][i])
    {
      assert Demoted(mem[f][i], mem1[f][i]);
    }
  }

  /** Where the leaf of `v` became a pointer, only a smaller leaf can still decide; where it did not,
      `get_pte_ptr` still finds it. */
  lemma {:induction false} DemotedWalk(m: Mode, mem: Frames, mem': Frames, t: Tree, v: Vpn, l: nat, h: Hit)
    requires Wf(m, mem, t) && Ram(m, mem') && AllDemoted(m, mem, mem') && l < |v| == m.Levels() && v[l + 1..] in t
    requires h == Walk(m, mem, t[v[l + 1..]], l, v) && h.Hit?
    ensures var e := mem'[h.frame][v[h.level]];
            && (e.IsPointer() ==> var h' := Walk(m, mem', t[v[l + 1..]], l, v); h'.Hit? ==> h'.level < h.level)
            && (e == h.entry ==> FindPte(m, mem', t[v[l + 1..]], l, v) == h)
  {
    var f := t[v[l + 1..]];
    assert Demoted(mem[f][v[l]], mem'[f][v[l]]);
    if mem[f][v[l]].IsPointer() {
      PointerStep(m, mem, t, v, l);
      DemotedWalk(m, mem, mem', t, v, l - 1, h);
    }
  }

  /** An entry that is a pointer stays one. */
  lemma {:induction false} StaysPointer(m: Mode, mem: Frames, root: nat, va: nat, i: nat, n: nat, flags: Flags,
      run: (Frames, nat) -> (Frames, MapResult, nat), f: nat, j: Index)
    requires root < m.PpnLimit() && RunsAs(m, root, va, n, flags, run) && Ram(m, mem) && !Maps(flags)
    requires f < m.PpnLimit() && mem[f][j].IsPointer()
    ensures Ram(m, run(mem, i).0) && run(mem, i).0[f][j].IsPointer()
  {
    LoopDemotes(m, mem, root, va, i, n, flags, run);
    assert Demoted(mem[f][j], run(mem, i).0[f][j]);
  }

  /** The loop comes to the leaf of its page, unless that is a pointer already. */
  lemma {:induction false} FoundHere(m: Mode, mem: Frames, mem1: Frames, t: Tree, w: Vpn, h: Hit)
    requires Wf(m, mem, t) && Ram(m, mem1) && AllDemoted(m, mem, mem1) && |w| == m.Levels()
    requires h == WalkRoot(m, mem, t[[]], w) && h.Hit? && !mem1[h.frame][w[h.level]].IsPointer()
    ensures FindPte(m, mem1, t[[]], m.Levels() - 1, w) == h
  {
    assert w[|w|..] == [];
    HitTable(m, mem, t, w, |w| - 1);
    assert Demoted(mem[h.frame][w[h.level]], mem1[h.frame][w[h.level]]);
    DemotedWalk(m, mem, mem1, t, w, |w| - 1, h);
  }

  lemma {:induction false} SameDigitsAs(v: Vpn, w: Vpn)
    requires |v| == |w| && PageNo(v, 0) == PageNo(w, 0)
    ensures v == w
  {
    PageNoSame(v, w, 0);
    assert v[0..] == v && w[0..] == w;
  }

  /** Every leaf that holds a page done by the loop is a pointer afterwards. */
  lemma {:induction false} DonePointer(m: Mode, mem: Frames, mem1: Frames, t: Tree, va: nat, i: nat, n: nat,
      flags: Flags, run: (Frames, nat) -> (Frames, MapResult, nat), w: Vpn, h: Hit)
    requires Wf(m, mem, t) && Ram(m, mem1) && AllDemoted(m, mem, mem1) && !Maps(flags) && i <= n
    requires Page(m, va, 0) + n <= Span(m.Levels()) && |w| == m.Levels() && h == WalkRoot(m, mem, t[[]], w) && h.Hit?
    requires RunsAs(m, t[[]], va, n, flags, run)
    requires Page(m, va, 0) + i <= PageNo(w, 0) < Page(m, va, 0) + run(mem1, i).2
    ensures Ram(m, run(mem1, i).0) && run(mem1, i).0[h.frame][w[h.level]].IsPointer()
    decreases n - i
  {
    if mem1[h.frame][w[h.level]].IsPointer() {
      StaysPointer(m, mem1, t[[]], va, i, n, flags, run, h.frame, w[h.level]);
      return;
    }
    var v := VpnOf(m, va + Times(i, Size(0)));
    var g := FindPte(m, mem1, t[[]], m.Levels() - 1, v);
    if i == n || g.Miss? {
      LoopStops(m, mem1, t[[]], va, i, n, flags, run, v);
      assert false;
    }
    var mem2 := DemotingTurn(m, mem1, t[[]], va, i, n, flags, run, v, g);
    v := NthUpdate(m, va, i, n);
    if PageNo(w, 0) == PageNo(v, 0) {
      SameDigitsAs(v, w);
      FoundHere(m, mem, mem1, t, w, h);
      StaysPointer(m, mem2, t[[]], va, i + 1, n, flags, run, h.frame, w[h.level]);
    } else {
      DemotedTwice(m, mem, mem1, mem2);
      DonePointer(m, mem, mem2, t, va, i + 1, n, flags, run, w, h);
    }
  }

  /** So its walk finds a smaller leaf, if any. */
  lemma {:induction false} DoneSmaller(m: Mode, mem: Frames, mem': Frames, t: Tree, va: nat, n: nat, flags: Flags,
      w: Vpn, h: Hit, k: nat)
    requires Wf(m, mem, t) && !Maps(flags) && Page(m, va, 0) + n <= Span(m.Levels()) && |w| == m.Levels()
    requires h == WalkRoot(m, mem, t[[]], w) && h.Hit? && Page(m, va, 0) <= PageNo(w, 0) < Page(m, va, 0) + k
    requires mem' == UpdatePages(m, mem, t[[]], va, 0, n, flags).0 && k == UpdatePages(m, mem, t[[]], va, 0, n, flags).2
    ensures mem'[h.frame][w[h.level]].IsPointer()
    ensures var h' := WalkRoot(m, mem', t[[]], w); h'.Hit? ==> h'.level < h.level
  {
    var root := t[[]];
    var run := (x: Frames, i: nat) => if Ram(m, x) then UpdatePages(m, x, root, va, i, n, flags) else (x, Ok, i);
    assert run(mem, 0) == UpdatePages(m, mem, root, va, 0, n, flags);
    DonePointer(m, mem, mem, t, va, 0, n, flags, run, w, h);
    LoopDemotes(m, mem, root, va, 0, n, flags, run);
    assert w[|w|..] == [];
    DemotedWalk(m, mem, mem', t, w, |w| - 1, h);
  }

  /** `update_mapping` keeps the leaf of a page it updates if and only if the new flags hold R, W or X, and
      then with the new flags; otherwise the entry is a pointer and only a smaller leaf, found through what
      the frame holds, can map the page. */
  lemma {:induction false} StaysLeafIff(m: Mode, mem: Frames, t: Tree, va: nat, n: nat, flags: Flags, w: Vpn)
    requires Wf(m, mem, t) && Page(m, va, 0) + n <= Span(m.Levels()) && |w| == m.Levels()
    requires Page(m, va, 0) <= PageNo(w, 0) < Page(m, va, 0) + UpdatePages(m, mem, t[[]], va, 0, n, flags).2
    requires WalkRoot(m, mem, t[[]], w).Hit?
    ensures var mem', h := UpdatePages(m, mem, t[[]], va, 0, n, flags).0, WalkRoot(m, mem, t[[]], w);
            var h' := WalkRoot(m, mem', t[[]], w);
            && ((h'.Hit? && h'.level == h.level) <==> Maps(flags))
            && (Maps(flags) ==> h' == h.(entry := h.entry.WriteFlags(flags)))
            && (!Maps(flags) ==> mem'[h.frame][w[h.level]].IsPointer() && (h'.Hit? ==> h'.level < h.level))
  {
    var mem', h := UpdatePages(m, mem, t[[]], va, 0, n, flags).0, WalkRoot(m, mem, t[[]], w);
    if Maps(flags) {
      var _, r, k := UpdatePagesRefines(m, mem, t, va, n, flags);
      assert UpdatedAt(m, mem, mem', t[[]], w, Page(m, va, 0), k, flags);
      PageNoUp(w, h.level);
      TouchedIff(w, h.level, Page(m, va, 0), k);
      assert Within(PageNo(w, 0), h.level, PageNo(w, h.level));
    } else {
      DoneSmaller(m, mem, mem', t, va, n, flags, w, h, UpdatePages(m, mem, t[[]], va, 0, n, flags).2);
    }
  }

  /** On a range whose first page is mapped `update_mapping` does what it is for, and keeps the tree well
      formed, if and only if the new flags hold R, W or X. */
  lemma {:induction false} UpdatesIff(m: Mode, mem: Frames, t: Tree, va: nat, n: nat, flags: Flags)
    requires Wf(m, mem, t) && n >= 1 && Page(m, va, 0) + n <= Span(m.Levels())
    requires WalkRoot(m, mem, t[[]], VpnOf(m, va)).Hit?
    ensures var (mem', r, k) := UpdatePages(m, mem, t[[]], va, 0, n, flags);
            && k >= 1
            && (FlagsUpdated(m, mem, mem', t[[]], Page(m, va, 0), k, flags) <==> Maps(flags))
            && (Wf(m, mem', t) <==> Maps(flags))
  {
    var w := NthUpdate(m, va, 0, n);
    var h, out := WalkRoot(m, mem, t[[]], w), UpdatePages(m, mem, t[[]], va, 0, n, flags);
    assert w[|w|..] == [] && w == VpnOf(m, va);
    FindPteIsWalk(m, mem, t, w, |w| - 1);
    UpdateCounts(m, mem, t[[]], va, 0, n, flags);
    StaysLeafIff(m, mem, t, va, n, flags, w);
    if Maps(flags) {
      var _, r, k := UpdatePagesRefines(m, mem, t, va, n, flags);
    } else {
      HitTable(m, mem, t, w, |w| - 1);
      NotLinked(m, mem, out.0, t, w, h.level);
      assert UpdatedAt(m, mem, out.0, t[[]], w, Page(m, va, 0), out.2, flags) ==> out.2 >= 1;
      PageNoUp(w, h.level);
      TouchedIff(w, h.level, Page(m, va, 0), out.2);
      assert Within(PageNo(w, 0), h.level, PageNo(w, h.level));
    }
  }

  /** A leaf that became a pointer leads to no table of the tree. */
  lemma {:induction false} NotLinked(m: Mode, mem: Frames, mem': Frames, t: Tree, v: Vpn, l: nat)
    requires Wf(m, mem, t) && Ram(m, mem') && l < |v| == m.Levels() && v[l + 1..] in t
    requires mem[t[v[l + 1..]]][v[l]].IsLeaf() && mem'[t[v[l + 1..]]][v[l]].IsPointer()
    ensures !Wf(m, mem', t)
  {
    var p := v[l + 1..];
    assert [v[l]] + p == v[l..] && v[l..][1..] == p;
    assert v[l..] in t ==> Linked(mem, t, v[l..]);
    assert !EntryOk(m, t, p, v[l], mem'[t[p]][v[l]]);
  }

  /** Taking every permission from a 1 GiB page reports Ok and unmaps it. */
  lemma {:induction false} PermissionsLost(va: nat, n: nat) returns (mem: Frames, t: Tree)
    requires va == 0 && n == 1
    ensures Wf(Sv39, mem, t) && WalkRoot(Sv39, mem, t[[]], VpnOf(Sv39, va)).Hit?
    ensures var (mem', r, _) := UpdatePages(Sv39, mem, t[[]], va, 0, n, {USER});
            r.Ok? && WalkRoot(Sv39, mem', t[[]], VpnOf(Sv39, va)).Miss?
  {
    mem, t := map f: nat | f < 0x400_0000 :: OneLeafFrame(f), map[[] := 1];
    OneLeafSpace(mem);
    var v := VpnOf(Sv39, va);
    assert v[2] == 0 && mem[1] == OneLeafFrame(1) && mem[0x4_0000] == OneLeafFrame(0x4_0000);
    var e := mem[1][v[2]];
    assert FindPte(Sv39, mem, 1, 2, v) == Hit(1, 2, e);
    var mem1 := Put(mem, 1, v[2], e.WriteFlags({USER}));
    UpdateTurn(Sv39, mem, 1, va, 0, n, {USER}, v, Hit(1, 2, e), mem1);
    assert mem1[1][v[2]].IsPointer() && mem1[0x4_0000] == EmptyTable();
  }
}
