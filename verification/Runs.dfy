/** Whole runs of the memory system: any sequence of new address spaces, mappings, range mappings and
    permission updates keeps every address space well formed and apart from the others, and acts on each
    page like updates of a function. */
module Runs {
  import opened Arith
  import opened Paging
  import opened Addr
  import opened Mapping
  import opened Ranges
  import opened Update
  import opened Copy
  import opened Image
  import opened Walker
  import opened Wrappers

  /** A call with its arguments.  Address spaces are numbered in the order they were made; number 0 is the
      kernel's, and `NewSpace` makes a user space that starts as a copy of it. */
  datatype Call =
    | NewSpace
    | MapOne(space: nat, va: nat, pa: nat, size: PageSize, flags: Flags)
    | MapRange(space: nat, va: nat, start: nat, end: nat, size: PageSize, flags: Flags)
    | IdentityMapRange(space: nat, start: nat, end: nat, flags: Flags)
    | UpdateMapping(space: nat, va: nat, len: nat, flags: Flags)
  {
    predicate Maps() { MapOne? || MapRange? || IdentityMapRange? }

    /** The first address, the first physical address and the level of a mapping, and the number of pages. */
    function Va(): nat
      requires Maps()
    {
      if IdentityMapRange? then AlignDown(start) else va
    }

    function Pa(): nat
      requires Maps()
    {
      match this case MapOne(_, _, pa, _, _) => pa case MapRange(_, _, start, _, _, _) => start case _ => Va()
    }

    function Level(): nat
      requires Maps()
    {
      if IdentityMapRange? then 0 else size.Level()
    }

    function Pages(): nat {
      match this
      case NewSpace => 0
      case MapOne(_, _, _, _, _) => 1
      case MapRange(_, _, start, end, _, _) => if start <= end then PagesIn(end - start, Level()) else 0
      case IdentityMapRange(_, start, end, _) => if start <= end then PagesMet(start, end - start) else 0
      case UpdateMapping(_, va, len, _) => PagesMet(va, len)
    }
  }

  /** The memory with the allocator, and the root frames of the address spaces. */
  datatype Sys = Sys(s: St, roots: seq<nat>)

  ghost predicate Usable(m: Mode, y: Sys) {
    StOk(m, y.s) && y.roots != [] && forall i {:trigger y.roots[i]} :: 0 <= i < |y.roots| ==> y.roots[i] < m.PpnLimit()
  }

  /** What a call reported, and the number of pages it acted on; `NoSpace` if it named no address space. */
  datatype Outcome = NoSpace | Done(r: MapResult, k: nat)

  /** The call acted on all its pages exactly if it reported Ok; a `map` that failed acted on none. */
  predicate Counts(c: Call, o: Outcome) {
    o.Done? && !c.NewSpace? ==> o.k <= c.Pages() && (o.r.Ok? <==> o.k == c.Pages())
  }

  /** `new_user_addr_space`: a cleared root and a copy of the kernel's mappings. */
  function MakeSpace(m: Mode, y: Sys): (r: (Sys, Outcome))
    requires Usable(m, y)
    ensures Usable(m, r.0) && |r.0.roots| >= |y.roots|
  {
    match AllocFrames(y.s.gfa, 1)
    case None => (y, Done(Err(AllocationFailed), 0))
    case Some((addr, g)) =>
      var (s, r) := CopyFrom(m, St(y.s.mem[addr / 4096 := EmptyTable()], g), addr / 4096, y.roots[0], 0,
        m.Levels() - 1, 0);
      (Sys(s, if r.Ok? then y.roots + [addr / 4096] else y.roots), Done(r, 0))
  }

  lemma {:induction false} MakeTurn(m: Mode, y: Sys, rpt: nat, g: Gfa, s: St, r: MapResult)
    requires Usable(m, y) && AllocFrames(y.s.gfa, 1).Some? && AllocFrames(y.s.gfa, 1).value.1 == g
    requires AllocFrames(y.s.gfa, 1).value.0 / 4096 == rpt
    requires (s, r) == CopyFrom(m, St(y.s.mem[rpt := EmptyTable()], g), rpt, y.roots[0], 0, m.Levels() - 1, 0)
    ensures MakeSpace(m, y) == (Sys(s, if r.Ok? then y.roots + [rpt] else y.roots), Done(r, 0))
  {
  }

  /** What the code does for one call. */
  function Exec(m: Mode, y: Sys, c: Call): (r: (Sys, Outcome))
    requires Usable(m, y) && (c.Maps() ==> c.Level() < m.Levels())
    ensures Usable(m, r.0) && |r.0.roots| >= |y.roots| && Counts(c, r.1)
  {
    if c.NewSpace? then MakeSpace(m, y)
    else if c.space >= |y.roots| then (y, NoSpace)
    else if c.Maps() then
      var (s, r, k) := MapPages(m, y.s, y.roots[c.space], c.Va(), c.Pa(), 0, c.Pages(), c.Level(), c.flags);
      (y.(s := s), Done(r, k))
    else
      UpdateCounts(m, y.s.mem, y.roots[c.space], AlignDown(c.va), 0, PagesMet(c.va, c.len), c.flags);
      var (mem, r, k) := UpdatePages(m, y.s.mem, y.roots[c.space], AlignDown(c.va), 0, PagesMet(c.va, c.len), c.flags);
      (y.(s := y.s.(mem := mem)), Done(r, k))
  }

  predicate LevelsOk(m: Mode, calls: seq<Call>) {
    forall i {:trigger calls[i]} :: 0 <= i < |calls| && calls[i].Maps() ==> calls[i].Level() < m.Levels()
  }

  /** What it does for a whole run: the state it leaves and the outcome of every call. */
  function ExecAll(m: Mode, y: Sys, calls: seq<Call>): (r: (Sys, seq<Outcome>))
    requires Usable(m, y) && LevelsOk(m, calls)
    ensures Usable(m, r.0) && |r.1| == |calls|
  {
    if calls == [] then (y, [])
    else
      var n := |calls| - 1;
      var (y1, os) := ExecAll(m, y, calls[..n]);
      var (y2, o) := Exec(m, y1, calls[n]);
      (y2, os + [o])
  }

  // ---------- what every call keeps ----------

  ghost predicate TreeAt(m: Mode, y: Sys, ts: seq<Tree>, i: nat)
    requires i < |ts| == |y.roots|
  {
    Space(m, y.s, ts[i]) && ts[i][[]] == y.roots[i]
  }

  ghost predicate ApartAt(ts: seq<Tree>, i: nat, j: nat)
    requires i < |ts| && j < |ts|
  {
    Separate(ts[i], ts[j])
  }

  /** Every root heads a well-formed tree away from the free frames, no two of them share a table, and the
      pointers of the kernel's tree are its own. */
  ghost predicate SysOk(m: Mode, y: Sys, ts: seq<Tree>) {
    && Usable(m, y) && |ts| == |y.roots|
    && (forall i {:trigger TreeAt(m, y, ts, i)} :: 0 <= i < |ts| ==> TreeAt(m, y, ts, i))
    && (forall i, j {:trigger ApartAt(ts, i, j)} :: 0 <= i < |ts| && 0 <= j < |ts| && i != j ==> ApartAt(ts, i, j))
    && Plain(y.s.mem, ts[0])
  }

  /** Some trees make the system well formed. */
  ghost predicate WellFormed(m: Mode, y: Sys) {
    exists ts :: SysOk(m, y, ts)
  }

  /** An edit that keeps another tree `u` leaves a separate tree alone, and the trees separate. */
  lemma {:induction false} ElsewhereKeeps(m: Mode, s: St, t: Tree, u: Tree, s': St, u': Tree)
    requires Space(m, s, t) && Separate(t, u) && Kept(m, s, u, s', u')
    ensures Space(m, s', t) && SameWalks(m, s.mem, s'.mem, t[[]]) && (Plain(s.mem, t) ==> Plain(s'.mem, t))
    ensures Separate(t, u') && Separate(u', t)
  {
    forall p {:trigger t[p]} | p in t
      ensures s'.mem[t[p]] == s.mem[t[p]] && !Owned(u', t[p])
    {
      assert !Owned(u, t[p]) && !Free(s.gfa, t[p]);
    }
    Untouched(m, s.mem, s'.mem, t);
    if Plain(s.mem, t) {
      PlainStays(m, s.mem, s'.mem, t);
    }
    forall q {:trigger Owned(t, u'[q])} | q in u'
      ensures !Owned(t, u'[q])
    {
      assert Owned(u', u'[q]);
    }
  }

  lemma {:induction false} PlainStays(m: Mode, mem: Frames, mem': Frames, t: Tree)
    requires Wf(m, mem, t) && Wf(m, mem', t) && Plain(mem, t) && forall p {:trigger t[p]} :: p in t ==>
        mem'[t[p]] == mem[t[p]]
    ensures Plain(mem', t)
  {
    forall p {:trigger PlainLink(mem', t, p)} | p in t && p != []
      ensures PlainLink(mem', t, p)
    {
      assert PlainLink(mem, t, p) && Linked(mem', t, p);
    }
  }

  /** An edit of address space `i` keeps the system and all walks of the others. */
  ghost predicate OnlySpace(m: Mode, y: Sys, s': St, i: nat)
    requires Usable(m, y) && StOk(m, s')
  {
    forall j {:trigger y.roots[j]} :: 0 <= j < |y.roots| && j != i ==> SameWalks(m, y.s.mem, s'.mem, y.roots[j])
  }

  lemma {:induction false} OthersKept(m: Mode, y: Sys, ts: seq<Tree>, i: nat, s': St, t': Tree)
    requires SysOk(m, y, ts) && i < |ts| && Kept(m, y.s, ts[i], s', t')
    ensures SysOk(m, y.(s := s'), ts[i := t']) && OnlySpace(m, y, s', i)
  {
    var y', ts' := y.(s := s'), ts[i := t'];
    assert TreeAt(m, y, ts, i);
    forall j | 0 <= j < |ts| && j != i
      ensures TreeAt(m, y', ts', j) && ApartAt(ts', i, j) && ApartAt(ts', j, i)
      ensures SameWalks(m, y.s.mem, s'.mem, y.roots[j]) && (Plain(y.s.mem, ts[j]) ==> Plain(s'.mem, ts[j]))
    {
      assert TreeAt(m, y, ts, j) && ApartAt(ts, j, i);
      ElsewhereKeeps(m, y.s, ts[j], ts[i], s', t');
    }
    forall j, k {:trigger ApartAt(ts', j, k)} | 0 <= j < |ts| && 0 <= k < |ts| && j != k
      ensures ApartAt(ts', j, k)
    {
      if j != i && k != i {
        assert ApartAt(ts, j, k);
      }
    }
    assert TreeAt(m, y', ts', i);
  }

  // ---------- what every call means ----------

  type Leaf = Option<(nat, Entry)>

  /** Where page `w` leads in every address space. */
  function View(m: Mode, y: Sys, w: Vpn): (v: seq<Leaf>)
    requires Usable(m, y) && |w| == m.Levels()
    ensures |v| == |y.roots|
    ensures forall i {:trigger v[i]} :: 0 <= i < |v| ==> v[i] == LeafOf(WalkRoot(m, y.s.mem, y.roots[i], w))
  {
    seq(|y.roots|, i requires 0 <= i < |y.roots| => LeafOf(WalkRoot(m, y.s.mem, y.roots[i], w)))
  }

  /** Mappings of the user are not copied. */
  function KernelPart(leaf: Leaf): Leaf {
    if leaf.Some? && USER in leaf.value.1.flags then None else leaf
  }

  /** Page `w` is one of the first `k` pages of the mapping. */
  predicate Among(m: Mode, c: Call, k: nat, w: Vpn)
    requires |w| == m.Levels() && c.Maps()
  {
    c.Level() < |w| && Page(m, c.Va(), c.Level()) <= PageNo(w, c.Level()) < Page(m, c.Va(), c.Level()) + k
  }

  /** The leaf a mapping gives one of its pages. */
  function NewLeaf(m: Mode, c: Call, w: Vpn): Leaf
    requires |w| == m.Levels() && c.Maps() && c.Level() < |w| && Page(m, c.Va(), c.Level()) <= PageNo(w, c.Level())
  {
    var d := PageNo(w, c.Level()) - Page(m, c.Va(), c.Level());
    Some((c.Level(), Entry(c.Pa() / 4096 + Times(d, Span(c.Level())), c.flags + {VALID})))
  }

  function Rewrite(m: Mode, c: Call, k: nat, w: Vpn, leaf: Leaf): Leaf
    requires |w| == m.Levels() && c.UpdateMapping?
  {
    if leaf.Some? && leaf.value.0 <= |w| && Touched(w, leaf.value.0, Page(m, c.va, 0), k)
    then Some((leaf.value.0, leaf.value.1.WriteFlags(c.flags))) else leaf
  }

  /** The page-by-page meaning of a call with its outcome: what becomes of the leaves of `w`. */
  function Apply(m: Mode, c: Call, o: Outcome, w: Vpn, v: seq<Leaf>): seq<Leaf>
    requires |w| == m.Levels()
  {
    if c.NewSpace? then (if o.Done? && o.r.Ok? && v != [] then v + [KernelPart(v[0])] else v)
    else if o.NoSpace? || c.space >= |v| then v
    else if c.UpdateMapping? then v[c.space := Rewrite(m, c, o.k, w, v[c.space])]
    else if Among(m, c, o.k, w) then v[c.space := NewLeaf(m, c, w)]
    else v
  }

  /** The call acted on every page as it means. */
  ghost predicate Applied(m: Mode, y: Sys, c: Call, y': Sys, o: Outcome)
    requires Usable(m, y) && Usable(m, y')
  {
    forall w: Vpn {:trigger View(m, y', w)} :: |w| == m.Levels() ==> View(m, y', w) == Apply(m, c, o, w, View(m, y, w))
  }

  /** The arguments of the call: some permission, aligned and within bounds, and no address that panics. */
  predicate ArgsOk(m: Mode, c: Call) {
    if c.NewSpace? then true
    else if c.UpdateMapping? then Paging.Maps(c.flags) && SameHalf(m, c.va, AlignUp(c.va + c.len))
    else
      && c.Level() < m.Levels() && Paging.Maps(c.flags) && RangeOk(m, c.Va(), c.Pa(), c.Pages(), c.Level())
      && (if c.IdentityMapRange? then AlignUp(c.end) <= VaLimit(m) else Canonical(m, c.va))
      && (c.MapOne? || c.start <= c.end)
  }

  /** An identity mapping may start and end anywhere in a page, as long as the last page can be named. */
  lemma {:induction false} IdentityArgs(m: Mode, space: nat, start: nat, end: nat, flags: Flags)
    ensures ArgsOk(m, IdentityMapRange(space, start, end, flags)) <==>
            && start <= end && (READ in flags || WRITE in flags || EXEC in flags)
            && (end + 0xfff) / 0x1000 * 0x1000 <= VaLimit(m) && (end + 0xfff) / 0x1000 <= m.PpnLimit()
  {
    Sizes();
    if start <= end {
      TimesIs(PagesMet(start, end - start), Span(0));
      if AlignUp(end) <= VaLimit(m) && AlignDown(start) < VaLimit(m) {
        SmallMod(AlignDown(start), VaLimit(m));
      }
    }
  }

  /** No leaf larger than the pages of the call lies above one of them. */
  ghost predicate ClearFor(m: Mode, y: Sys, c: Call, space: nat)
    requires Usable(m, y) && space < |y.roots| && c.Maps() && c.Level() < m.Levels()
  {
    RangeClear(m, y.s.mem, y.roots[space], Page(m, c.Va(), c.Level()), c.Pages(), c.Level())
  }

  lemma {:induction false} ViewOnly(m: Mode, y: Sys, s': St, i: nat, w: Vpn, leaf: Leaf)
    requires Usable(m, y) && StOk(m, s') && i < |y.roots| && OnlySpace(m, y, s', i) && |w| == m.Levels()
    requires leaf == LeafOf(WalkRoot(m, s'.mem, y.roots[i], w))
    ensures View(m, y.(s := s'), w) == View(m, y, w)[i := leaf]
  {
    var y' := y.(s := s');
    forall j | 0 <= j < |y.roots|
      ensures View(m, y', w)[j] == View(m, y, w)[i := leaf][j]
    {
      if j != i {
        assert SameWalks(m, y.s.mem, s'.mem, y.roots[j]);
        assert WalkRoot(m, s'.mem, y.roots[j], w) == WalkRoot(m, y.s.mem, y.roots[j], w);
      }
    }
  }

  /** What a mapping does to a page of its own address space. */
  lemma {:induction false} MappedLeaf(m: Mode, mem: Frames, mem': Frames, root: nat, c: Call, k: nat, w: Vpn,
      first: nat, l: nat, ppn: nat)
    requires Ram(m, mem) && Ram(m, mem') && root < m.PpnLimit() && c.Maps() && c.Level() == l < |w| == m.Levels()
    requires Page(m, c.Va(), l) == first && c.Pa() / 4096 == ppn
    requires Redirect(m, mem, mem', root, w, first, k, l, ppn, c.flags)
    ensures LeafOf(WalkRoot(m, mem', root, w))
         == if Among(m, c, k, w) then NewLeaf(m, c, w) else LeafOf(WalkRoot(m, mem, root, w))
  {
  }

  lemma {:induction false} ApplyMapping(m: Mode, c: Call, o: Outcome, w: Vpn, v: seq<Leaf>)
    requires |w| == m.Levels() && c.Maps() && o.Done? && c.space < |v|
    ensures Apply(m, c, o, w, v) == v[c.space := if Among(m, c, o.k, w) then NewLeaf(m, c, w) else v[c.space]]
  {
  }

  lemma {:induction false} MapAppliedAt(m: Mode, y: Sys, c: Call, s': St, k: nat, o: Outcome, w: Vpn, first: nat,
      l: nat, ppn: nat)
    requires Usable(m, y) && StOk(m, s') && c.Maps() && c.Level() == l < |w| == m.Levels() && c.space < |y.roots|
    requires OnlySpace(m, y, s', c.space) && o.Done? && o.k == k && Page(m, c.Va(), l) == first && c.Pa() / 4096 == ppn
    requires Redirect(m, y.s.mem, s'.mem, y.roots[c.space], w, first, k, l, ppn, c.flags)
    ensures View(m, y.(s := s'), w) == Apply(m, c, o, w, View(m, y, w))
  {
    var leaf := LeafOf(WalkRoot(m, s'.mem, y.roots[c.space], w));
    MappedLeaf(m, y.s.mem, s'.mem, y.roots[c.space], c, k, w, first, l, ppn);
    ViewOnly(m, y, s', c.space, w, leaf);
    ApplyMapping(m, c, o, w, View(m, y, w));
  }

  lemma {:induction false} MapApplied(m: Mode, y: Sys, c: Call, s': St, k: nat, r: MapResult, first: nat, l: nat,
      ppn: nat)
    requires Usable(m, y) && StOk(m, s') && c.Maps() && c.Level() == l < m.Levels() && c.space < |y.roots|
    requires OnlySpace(m, y, s', c.space) && Page(m, c.Va(), l) == first && c.Pa() / 4096 == ppn
    requires RangeRedirected(m, y.s.mem, s'.mem, y.roots[c.space], first, k, l, ppn, c.flags)
    ensures Applied(m, y, c, y.(s := s'), Done(r, k))
  {
    var y', o := y.(s := s'), Done(r, k);
    forall w: Vpn {:trigger View(m, y', w)} | |w| == m.Levels()
      ensures View(m, y', w) == Apply(m, c, o, w, View(m, y, w))
    {
      MapAppliedAt(m, y, c, s', k, o, w, first, l, ppn);
    }
  }

  lemma {:induction false} UpdateApplied(m: Mode, y: Sys, c: Call, s': St, k: nat, r: MapResult)
    requires Usable(m, y) && StOk(m, s') && c.UpdateMapping? && c.space < |y.roots| && OnlySpace(m, y, s', c.space)
    requires FlagsUpdated(m, y.s.mem, s'.mem, y.roots[c.space], Page(m, c.va, 0), k, c.flags)
    ensures Applied(m, y, c, y.(s := s'), Done(r, k))
  {
    var y', i, o := y.(s := s'), c.space, Done(r, k);
    forall w: Vpn {:trigger View(m, y', w)} | |w| == m.Levels()
      ensures View(m, y', w) == Apply(m, c, o, w, View(m, y, w))
    {
      assert UpdatedAt(m, y.s.mem, s'.mem, y.roots[i], w, Page(m, c.va, 0), k, c.flags);
      ViewOnly(m, y, s', i, w, LeafOf(WalkRoot(m, s'.mem, y.roots[i], w)));
    }
  }

  lemma {:induction false} MapStep(m: Mode, y: Sys, ts: seq<Tree>, c: Call) returns (y': Sys, o: Outcome)
    requires SysOk(m, y, ts) && c.Maps() && ArgsOk(m, c) && c.space < |y.roots| && ClearFor(m, y, c, c.space)
    ensures (y', o) == Exec(m, y, c) && WellFormed(m, y') && Applied(m, y, c, y', o)
  {
    var i, l := c.space, c.Level();
    assert TreeAt(m, y, ts, i);
    var s', r, k := MapPagesRefines(m, y.s, ts[i], c.Va(), c.Pa(), c.Pages(), l, c.flags);
    var t' :| RangeEffect(m, y.s, ts[i], s', t', r, Page(m, c.Va(), l), c.Pages(), k, l, c.Pa() / 4096, c.flags);
    OthersKept(m, y, ts, i, s', t');
    MapApplied(m, y, c, s', k, r, Page(m, c.Va(), l), l, c.Pa() / 4096);
    y', o := y.(s := s'), Done(r, k);
  }

  lemma {:induction false} UpdateStep(m: Mode, y: Sys, ts: seq<Tree>, c: Call) returns (y': Sys, o: Outcome)
    requires SysOk(m, y, ts) && c.UpdateMapping? && ArgsOk(m, c) && c.space < |y.roots|
    ensures (y', o) == Exec(m, y, c) && WellFormed(m, y') && Applied(m, y, c, y', o)
  {
    var i := c.space;
    assert TreeAt(m, y, ts, i);
    PagesMetOk(m, c.va, c.len);
    var mem', r, k := UpdatePagesRefines(m, y.s.mem, ts[i], AlignDown(c.va), PagesMet(c.va, c.len), c.flags);
    var s' := y.s.(mem := mem');
    UpdateKept(m, y.s, ts[i], mem', Page(m, c.va, 0), k, c.flags);
    OthersKept(m, y, ts, i, s', ts[i]);
    UpdateApplied(m, y, c, s', k, r);
    y', o := y.(s := s'), Done(r, k);
  }

  /** A frame that was free, cleared for a new root, is away from every tree. */
  lemma {:induction false} RootMade(m: Mode, s: St, t: Tree, rpt: nat, s1: St)
    requires Space(m, s, t) && AllocFrames(s.gfa, 1).Some? && rpt == s.gfa.ptr / 4096
    requires s1 == St(s.mem[rpt := EmptyTable()], AllocFrames(s.gfa, 1).value.1)
    ensures Space(m, s1, t) && SameWalks(m, s.mem, s1.mem, t[[]]) && !Owned(t, rpt)
    ensures Separate(t, map[[] := rpt]) && Separate(map[[] := rpt], t) && (Plain(s.mem, t) ==> Plain(s1.mem, t))
  {
    var u: Tree := map[[] := rpt];
    assert Free(s.gfa, rpt);
    assert forall p {:trigger t[p]} :: p in t ==> t[p] != rpt;
    Untouched(m, s.mem, s1.mem, t);
    if Plain(s.mem, t) {
      PlainStays(m, s.mem, s1.mem, t);
    }
    forall p {:trigger Owned(u, t[p])} | p in t
      ensures !Owned(u, t[p])
    {
    }
  }

  /** Tree `i` is well formed in `s1`, with the same walks as before, and away from `u`. */
  ghost predicate BesideAt(m: Mode, y: Sys, ts: seq<Tree>, s1: St, u: Tree, i: nat)
    requires Usable(m, y) && i < |ts| == |y.roots| && StOk(m, s1)
  {
    && Space(m, s1, ts[i]) && SameWalks(m, y.s.mem, s1.mem, y.roots[i])
    && (Plain(y.s.mem, ts[i]) ==> Plain(s1.mem, ts[i]))
    && Separate(ts[i], u) && Separate(u, ts[i])
  }

  /** The system while a new tree `u` is filled. */
  ghost predicate Beside(m: Mode, y: Sys, ts: seq<Tree>, s1: St, u: Tree)
    requires Usable(m, y) && |ts| == |y.roots| && StOk(m, s1)
  {
    Space(m, s1, u) && forall i {:trigger BesideAt(m, y, ts, s1, u, i)} :: 0 <= i < |ts| ==>
      BesideAt(m, y, ts, s1, u, i)
  }

  lemma {:induction false} RootBeside(m: Mode, y: Sys, ts: seq<Tree>, rpt: nat, s1: St)
    requires SysOk(m, y, ts) && AllocFrames(y.s.gfa, 1).Some? && rpt == y.s.gfa.ptr / 4096
    requires s1 == St(y.s.mem[rpt := EmptyTable()], AllocFrames(y.s.gfa, 1).value.1)
    ensures StOk(m, s1) && rpt < m.PpnLimit() && !Free(s1.gfa, rpt) && Beside(m, y, ts, s1, map[[] := rpt])
    ensures !Owned(ts[0], rpt)
  {
    var u: Tree := map[[] := rpt];
    assert Free(y.s.gfa, rpt);
    EmptyRoot(m, s1, rpt);
    forall i {:trigger BesideAt(m, y, ts, s1, u, i)} | 0 <= i < |ts|
      ensures BesideAt(m, y, ts, s1, u, i)
    {
      assert TreeAt(m, y, ts, i);
      RootMade(m, y.s, ts[i], rpt, s1);
    }
    assert TreeAt(m, y, ts, 0);
    RootMade(m, y.s, ts[0], rpt, s1);
  }

  lemma {:induction false} CopyBeside(m: Mode, y: Sys, ts: seq<Tree>, s1: St, u: Tree, s2: St, ut: Tree)
    requires SysOk(m, y, ts) && StOk(m, s1) && Beside(m, y, ts, s1, u) && Kept(m, s1, u, s2, ut)
    ensures Beside(m, y, ts, s2, ut)
  {
    forall i {:trigger BesideAt(m, y, ts, s2, ut, i)} | 0 <= i < |ts|
      ensures BesideAt(m, y, ts, s2, ut, i)
    {
      assert TreeAt(m, y, ts, i) && BesideAt(m, y, ts, s1, u, i);
      ElsewhereKeeps(m, s1, ts[i], u, s2, ut);
      SameTwice(m, y.s.mem, s1.mem, s2.mem, y.roots[i]);
    }
  }

  /** Without the new tree the system is well formed and unmoved ... */
  lemma {:induction false} BesideKept(m: Mode, y: Sys, ts: seq<Tree>, s2: St, ut: Tree)
    requires SysOk(m, y, ts) && StOk(m, s2) && Beside(m, y, ts, s2, ut)
    ensures SysOk(m, y.(s := s2), ts)
    ensures forall w: Vpn {:trigger View(m, y.(s := s2), w)} :: |w| == m.Levels() ==>
        View(m, y.(s := s2), w) == View(m, y, w)
  {
    var y' := y.(s := s2);
    forall i {:trigger TreeAt(m, y', ts, i)} | 0 <= i < |ts|
      ensures TreeAt(m, y', ts, i)
    {
      assert TreeAt(m, y, ts, i) && BesideAt(m, y, ts, s2, ut, i);
    }
    assert BesideAt(m, y, ts, s2, ut, 0);
    forall w: Vpn {:trigger View(m, y', w)} | |w| == m.Levels()
      ensures View(m, y', w) == View(m, y, w)
    {
      forall i | 0 <= i < |ts|
        ensures View(m, y', w)[i] == View(m, y, w)[i]
      {
        assert BesideAt(m, y, ts, s2, ut, i);
        assert WalkRoot(m, s2.mem, y.roots[i], w) == WalkRoot(m, y.s.mem, y.roots[i], w);
      }
    }
  }

  /** ... and so it is with the new tree. */
  lemma {:induction false} BesideAdded(m: Mode, y: Sys, ts: seq<Tree>, s2: St, ut: Tree)
    requires SysOk(m, y, ts) && StOk(m, s2) && Beside(m, y, ts, s2, ut)
    ensures SysOk(m, Sys(s2, y.roots + [ut[[]]]), ts + [ut])
  {
    var y', ts' := Sys(s2, y.roots + [ut[[]]]), ts + [ut];
    forall i {:trigger TreeAt(m, y', ts', i)} | 0 <= i < |ts'|
      ensures TreeAt(m, y', ts', i)
    {
      assert i < |ts| ==> TreeAt(m, y, ts, i) && BesideAt(m, y, ts, s2, ut, i);
    }
    forall i, j {:trigger ApartAt(ts', i, j)} | 0 <= i < |ts'| && 0 <= j < |ts'| && i != j
      ensures ApartAt(ts', i, j)
    {
      assert i < |ts| ==> BesideAt(m, y, ts, s2, ut, i);
      assert j < |ts| ==> BesideAt(m, y, ts, s2, ut, j);
      assert i < |ts| && j < |ts| ==> ApartAt(ts, i, j);
    }
    assert BesideAt(m, y, ts, s2, ut, 0);
  }

  /** The copy of a tree with plain pointers holds its leaves that are not the user's. */
  lemma {:induction false} CopyView(m: Mode, s1: St, kt: Tree, mem: Frames, u: nat, w: Vpn)
    requires Wf(m, s1.mem, kt) && Plain(s1.mem, kt) && Ram(m, mem) && u < m.PpnLimit() && |w| == m.Levels()
    requires Copied(m, s1.mem, mem, kt[[]], u)
    ensures LeafOf(WalkRoot(m, mem, u, w)) == KernelPart(LeafOf(WalkRoot(m, s1.mem, kt[[]], w)))
  {
    assert w[|w|..] == [];
    PlainPath(m, s1.mem, kt, w, |w| - 1);
  }

  lemma {:induction false} NewApplied(m: Mode, y: Sys, ts: seq<Tree>, s1: St, s2: St, ut: Tree, rpt: nat)
    requires SysOk(m, y, ts) && StOk(m, s1) && StOk(m, s2) && rpt < m.PpnLimit()
    requires Beside(m, y, ts, s1, map[[] := rpt]) && Beside(m, y, ts, s2, ut)
    requires Copied(m, s1.mem, s2.mem, y.roots[0], rpt)
    ensures Usable(m, Sys(s2, y.roots + [rpt])) && Applied(m, y, NewSpace, Sys(s2, y.roots + [rpt]), Done(Ok, 0))
  {
    var y' := Sys(s2, y.roots + [rpt]);
    BesideKept(m, y, ts, s2, ut);
    forall w: Vpn {:trigger View(m, y', w)} | |w| == m.Levels()
      ensures View(m, y', w) == View(m, y, w) + [KernelPart(View(m, y, w)[0])]
    {
      assert TreeAt(m, y, ts, 0) && BesideAt(m, y, ts, s1, map[[] := rpt], 0);
      CopyView(m, s1, ts[0], s2.mem, rpt, w);
      assert WalkRoot(m, s1.mem, y.roots[0], w) == WalkRoot(m, y.s.mem, y.roots[0], w);
      assert View(m, y.(s := s2), w) == View(m, y, w);
      assert forall i {:trigger View(m, y', w)[i]} :: 0 <= i < |y.roots| ==>
        View(m, y', w)[i] == View(m, y.(s := s2), w)[i];
    }
  }

  lemma {:induction false} NewStep(m: Mode, y: Sys, ts: seq<Tree>) returns (y': Sys, o: Outcome)
    requires SysOk(m, y, ts)
    ensures (y', o) == Exec(m, y, NewSpace) && WellFormed(m, y') && Applied(m, y, NewSpace, y', o)
  {
    if AllocFrames(y.s.gfa, 1).None? {
      return y, Done(Err(AllocationFailed), 0);
    }
    var rpt := y.s.gfa.ptr / 4096;
    var s1, u: Tree := St(y.s.mem[rpt := EmptyTable()], AllocFrames(y.s.gfa, 1).value.1), map[[] := rpt];
    RootBeside(m, y, ts, rpt, s1);
    assert TreeAt(m, y, ts, 0) && BesideAt(m, y, ts, s1, u, 0);
    var s2, r := CopyRefines(m, s1, ts[0], rpt);
    var ut :| CopyEffect(m, s1, ts[0], rpt, s2, ut, r);
    CopyBeside(m, y, ts, s1, u, s2, ut);
    if r.Err? {
      BesideKept(m, y, ts, s2, ut);
      return y.(s := s2), Done(r, 0);
    }
    BesideAdded(m, y, ts, s2, ut);
    NewApplied(m, y, ts, s1, s2, ut, rpt);
    return Sys(s2, y.roots + [rpt]), Done(Ok, 0);
  }

  /** One call on a well-formed system, with no larger leaf above what it maps. */
  lemma {:induction false} ExecKeeps(m: Mode, y: Sys, c: Call) returns (y': Sys, o: Outcome)
    requires WellFormed(m, y) && ArgsOk(m, c) && Usable(m, y)
    requires c.Maps() && c.space < |y.roots| ==> ClearFor(m, y, c, c.space)
    ensures (y', o) == Exec(m, y, c) && Counts(c, o) && WellFormed(m, y') && Applied(m, y, c, y', o)
  {
    var ts :| SysOk(m, y, ts);
    if c.NewSpace? {
      y', o := NewStep(m, y, ts);
    } else if c.space >= |y.roots| {
      y', o := y, NoSpace;
    } else if c.Maps() {
      y', o := MapStep(m, y, ts, c);
    } else {
      y', o := UpdateStep(m, y, ts, c);
    }
  }

  // ---------- whole runs ----------

  /** The meaning of a whole run, call after call. */
  function ApplyAll(m: Mode, calls: seq<Call>, os: seq<Outcome>, w: Vpn, v: seq<Leaf>): seq<Leaf>
    requires |w| == m.Levels() && |os| == |calls|
  {
    if calls == [] then v
    else var n := |calls| - 1; Apply(m, calls[n], os[n], w, ApplyAll(m, calls[..n], os[..n], w, v))
  }

  predicate Covers(m: Mode, c: Call, w: Vpn) {
    |w| == m.Levels() && c.Maps() && Among(m, c, c.Pages(), w)
  }

  /** What is mapped in space `i` can end up in space `j`, when there were `n0` spaces at first: they are
      the same, or `j` is made later, as a copy of space 0. */
  predicate Feeds(n0: nat, i: nat, j: nat) {
    i == j || (i == 0 && j >= n0)
  }

  /** Where both calls map, the later one does not map smaller pages. */
  ghost predicate Ordered(m: Mode, n0: nat, a: Call, b: Call) {
    a.Maps() && b.Maps() && Feeds(n0, a.space, b.space) ==>
      forall w: Vpn {:trigger Covers(m, a, w), Covers(m, b, w)} :: Covers(m, a, w) && Covers(m, b, w) ==>
        a.Level() <= b.Level()
  }

  /** The conditions on the arguments of a run that starts with `n0` address spaces. */
  ghost predicate RunOk(m: Mode, n0: nat, calls: seq<Call>) {
    && (forall i {:trigger calls[i]} :: 0 <= i < |calls| ==> ArgsOk(m, calls[i]))
    && (forall i, j {:trigger calls[i], calls[j]} :: 0 <= i < j < |calls| ==> Ordered(m, n0, calls[i], calls[j]))
  }

  /** At the start no larger leaf lies above what the calls map; a space yet to be made starts as space 0. */
  ghost predicate StartClear(m: Mode, y: Sys, calls: seq<Call>)
    requires Usable(m, y) && LevelsOk(m, calls)
  {
    forall i {:trigger calls[i]} :: 0 <= i < |calls| && calls[i].Maps() ==>
      ClearFor(m, y, calls[i], if calls[i].space < |y.roots| then calls[i].space else 0)
  }

  /** All leaves that can end up in `space` have at most level `l`. */
  predicate Below(v: seq<Leaf>, n0: nat, space: nat, l: nat) {
    forall j {:trigger v[j]} :: 0 <= j < |v| && Feeds(n0, j, space) && v[j].Some? ==> v[j].value.0 <= l
  }

  /** A call puts no larger leaf above a page that a later call maps. */
  lemma {:induction false} BelowKept(m: Mode, n0: nat, c: Call, o: Outcome, b: Call, w: Vpn, v: seq<Leaf>)
    requires |w| == m.Levels() && Ordered(m, n0, c, b) && Covers(m, b, w) && n0 >= 1 && |v| >= n0
    requires Below(v, n0, b.space, b.Level()) && Counts(c, o)
    ensures Below(Apply(m, c, o, w, v), n0, b.space, b.Level()) && |Apply(m, c, o, w, v)| >= |v|
  {
    if c.Maps() && o.Done? && Among(m, c, o.k, w) {
      assert Covers(m, c, w);
    }
  }

  predicate AllCount(calls: seq<Call>, os: seq<Outcome>)
    requires |os| == |calls|
  {
    forall i {:trigger calls[i]} {:trigger os[i]} :: 0 <= i < |calls| ==> Counts(calls[i], os[i])
  }

  lemma {:induction false} BelowAll(m: Mode, n0: nat, calls: seq<Call>, os: seq<Outcome>, b: Call, w: Vpn, v: seq<Leaf>)
    requires |w| == m.Levels() && |os| == |calls| && Covers(m, b, w) && n0 >= 1 && |v| >= n0
    requires Below(v, n0, b.space, b.Level()) && AllCount(calls, os)
    requires forall i {:trigger calls[i]} :: 0 <= i < |calls| ==> Ordered(m, n0, calls[i], b)
    ensures Below(ApplyAll(m, calls, os, w, v), n0, b.space, b.Level()) && |ApplyAll(m, calls, os, w, v)| >= |v|
  {
    if calls != [] {
      var n := |calls| - 1;
      assert Ordered(m, n0, calls[n], b);
      BelowAll(m, n0, calls[..n], os[..n], b, w, v);
      BelowKept(m, n0, calls[n], os[n], b, w, ApplyAll(m, calls[..n], os[..n], w, v));
    }
  }

  /** The run went from `y` to `y'` as its calls mean, those that reported Ok on all their pages, and the
      system is well formed. */
  ghost predicate RunGood(m: Mode, y: Sys, calls: seq<Call>, y': Sys, os: seq<Outcome>)
    requires Usable(m, y) && Usable(m, y')
  {
    && WellFormed(m, y') && |os| == |calls| && AllCount(calls, os)
    && forall w: Vpn {:trigger View(m, y', w)} :: |w| == m.Levels() ==>
      View(m, y', w) == ApplyAll(m, calls, os, w, View(m, y, w))
  }

  lemma {:induction false} BelowAtStart(m: Mode, y: Sys, b: Call, w: Vpn)
    requires Usable(m, y) && Covers(m, b, w) && b.Level() < m.Levels()
    requires ClearFor(m, y, b, if b.space < |y.roots| then b.space else 0)
    ensures Below(View(m, y, w), |y.roots|, b.space, b.Level())
  {
    assert NoLargerLeaf(m, y.s.mem, y.roots[if b.space < |y.roots| then b.space else 0], w, b.Level());
  }

  /** After any part of the run no larger leaf lies above what the next call maps. */
  lemma {:induction false} StillClear(m: Mode, y: Sys, calls: seq<Call>, y': Sys, os: seq<Outcome>, b: Call)
    requires Usable(m, y) && Usable(m, y') && RunGood(m, y, calls, y', os) && b.Maps() && b.Level() < m.Levels()
    requires ClearFor(m, y, b, if b.space < |y.roots| then b.space else 0) && b.space < |y'.roots|
    requires forall i {:trigger calls[i]} :: 0 <= i < |calls| ==> Ordered(m, |y.roots|, calls[i], b)
    ensures ClearFor(m, y', b, b.space)
  {
    var first, l, root := Page(m, b.Va(), b.Level()), b.Level(), y'.roots[b.space];
    forall w: Vpn {:trigger NoLargerLeaf(m, y'.s.mem, root, w, l)}
      | |w| == m.Levels() && first <= PageNo(w, l) < first + b.Pages()
      ensures NoLargerLeaf(m, y'.s.mem, root, w, l)
    {
      assert Covers(m, b, w);
      BelowAtStart(m, y, b, w);
      BelowAll(m, |y.roots|, calls, os, b, w, View(m, y, w));
      assert View(m, y', w)[b.space] == LeafOf(WalkRoot(m, y'.s.mem, root, w));
    }
  }

  lemma {:induction false} RunMore(m: Mode, y: Sys, calls: seq<Call>, y1: Sys, os: seq<Outcome>, c: Call, y2: Sys,
      o: Outcome)
    requires Usable(m, y) && Usable(m, y1) && Usable(m, y2) && RunGood(m, y, calls, y1, os)
    requires WellFormed(m, y2) && Applied(m, y1, c, y2, o) && Counts(c, o)
    ensures RunGood(m, y, calls + [c], y2, os + [o])
  {
    var cs, os' := calls + [c], os + [o];
    assert cs[..|calls|] == calls && os'[..|os|] == os;
    forall w: Vpn {:trigger View(m, y2, w)} | |w| == m.Levels()
      ensures View(m, y2, w) == ApplyAll(m, cs, os', w, View(m, y, w))
    {
      assert View(m, y1, w) == ApplyAll(m, calls, os, w, View(m, y, w));
    }
  }

  /** In every run every address space stays well formed and apart from the others, and each page of each
      of them leads where the calls, applied in order to where it led at first, say. */
  lemma {:induction false} RunRefines(m: Mode, y: Sys, calls: seq<Call>) returns (y': Sys, os: seq<Outcome>)
    requires Usable(m, y) && WellFormed(m, y) && LevelsOk(m, calls)
    requires RunOk(m, |y.roots|, calls) && StartClear(m, y, calls)
    ensures (y', os) == ExecAll(m, y, calls) && RunGood(m, y, calls, y', os)
    decreases |calls|
  {
    if calls == [] {
      return y, [];
    }
    var n := |calls| - 1;
    var cs, c := calls[..n], calls[n];
    var y1, os1 := RunRefines(m, y, cs);
    if c.Maps() && c.space < |y1.roots| {
      StillClear(m, y, cs, y1, os1, c);
    }
    assert ArgsOk(m, c);
    var y2, o := ExecKeeps(m, y1, c);
    RunMore(m, y, cs, y1, os1, c, y2, o);
    assert calls == cs + [c];
    return y2, os1 + [o];
  }

  // ---------- what a run means for addresses ----------

  /** Where a leaf leads address `x`. */
  function PhysOf(leaf: Leaf, x: nat): Option<nat> {
    if leaf.None? then None else Some(leaf.value.1.ppn * 4096 + x % Size(leaf.value.0))
  }

  /** In a well-formed system every address translates by its leaf. */
  lemma {:induction false} ViewTranslates(m: Mode, y: Sys, i: nat, x: nat)
    requires WellFormed(m, y) && Usable(m, y) && i < |y.roots|
    ensures VirtToPhys(m, y.s.mem, y.roots[i], x) == PhysOf(View(m, y, VpnOf(m, x))[i], x)
  {
    var ts :| SysOk(m, y, ts);
    assert TreeAt(m, y, ts, i);
    var w, h := VpnOf(m, x), WalkRoot(m, y.s.mem, y.roots[i], VpnOf(m, x));
    assert w[|w|..] == [];
    if h.Hit? {
      HitTable(m, y.s.mem, ts[i], w, |w| - 1);
      LeafTranslates(m, y.s.mem, y.roots[i], x, h.level, h.entry);
    }
  }

  /** After every run every address of every address space translates as the calls, applied in order to its
      page, say. */
  lemma {:induction false} RunTranslates(m: Mode, y: Sys, calls: seq<Call>, y': Sys, os: seq<Outcome>, i: nat, x: nat,
      w: Vpn)
    requires Usable(m, y) && WellFormed(m, y) && LevelsOk(m, calls) && (y', os) == ExecAll(m, y, calls)
    requires RunOk(m, |y.roots|, calls) && StartClear(m, y, calls) && w == VpnOf(m, x)
    ensures |ApplyAll(m, calls, os, w, View(m, y, w))| == |y'.roots| && AllCount(calls, os)
    ensures i < |y'.roots| ==>
              VirtToPhys(m, y'.s.mem, y'.roots[i], x) == PhysOf(ApplyAll(m, calls, os, w, View(m, y, w))[i], x)
  {
    var y1, os1 := RunRefines(m, y, calls);
    assert View(m, y1, w) == ApplyAll(m, calls, os1, w, View(m, y, w));
    if i < |y'.roots| {
      ViewTranslates(m, y1, i, x);
    }
  }

  /** The call is about address space `i`. */
  predicate Names(c: Call, i: nat) { !c.NewSpace? && c.space == i }

  lemma {:induction false} ApplyOthers(m: Mode, calls: seq<Call>, os: seq<Outcome>, w: Vpn, v: seq<Leaf>, i: nat)
    requires |w| == m.Levels() && |os| == |calls| && i < |v|
    requires forall k {:trigger calls[k]} :: 0 <= k < |calls| ==> !Names(calls[k], i)
    ensures i < |ApplyAll(m, calls, os, w, v)| && ApplyAll(m, calls, os, w, v)[i] == v[i]
  {
    if calls != [] {
      var n := |calls| - 1;
      ApplyOthers(m, calls[..n], os[..n], w, v, i);
      assert !Names(calls[n], i);
    }
  }

  lemma {:induction false} RootsStay(m: Mode, y: Sys, calls: seq<Call>)
    requires Usable(m, y) && LevelsOk(m, calls)
    ensures y.roots <= ExecAll(m, y, calls).0.roots
  {
    if calls != [] {
      RootsStay(m, y, calls[..|calls| - 1]);
    }
  }

  /** Isolation: a run in which no call names address space `i` moves none of its addresses, whatever else
      it maps, copies or runs out of. */
  lemma {:induction false} Isolated(m: Mode, y: Sys, calls: seq<Call>, i: nat, x: nat)
    requires Usable(m, y) && WellFormed(m, y) && LevelsOk(m, calls)
    requires RunOk(m, |y.roots|, calls) && StartClear(m, y, calls) && i < |y.roots|
    requires forall k {:trigger calls[k]} :: 0 <= k < |calls| ==> !Names(calls[k], i)
    ensures VirtToPhys(m, ExecAll(m, y, calls).0.s.mem, y.roots[i], x) == VirtToPhys(m, y.s.mem, y.roots[i], x)
  {
    var w, y', os := VpnOf(m, x), ExecAll(m, y, calls).0, ExecAll(m, y, calls).1;
    RootsStay(m, y, calls);
    RunTranslates(m, y, calls, y', os, i, x, w);
    ApplyOthers(m, calls, os, w, View(m, y, w), i);
    ViewTranslates(m, y, i, x);
  }

  /** The call with outcome `o` mapped page `w` of space `i`. */
  predicate Wrote(m: Mode, c: Call, o: Outcome, i: nat, w: Vpn)
    requires |w| == m.Levels()
  {
    c.Maps() && c.space == i && o.Done? && Among(m, c, o.k, w)
  }

  /** Same page size and frame, perhaps other flags. */
  predicate SamePlace(a: Leaf, b: Leaf) {
    a.Some? <==> b.Some? && (a.Some? ==> a.value.0 == b.value.0 && a.value.1.ppn == b.value.1.ppn)
  }

  lemma {:induction false} ApplySpares(m: Mode, c: Call, o: Outcome, w: Vpn, v: seq<Leaf>, i: nat)
    requires |w| == m.Levels() && i < |v| && !Wrote(m, c, o, i, w)
    ensures i < |Apply(m, c, o, w, v)| && SamePlace(Apply(m, c, o, w, v)[i], v[i])
  {
  }

  /** The leaves of a page after each number of calls. */
  ghost predicate Trace(m: Mode, calls: seq<Call>, os: seq<Outcome>, w: Vpn, at: nat -> seq<Leaf>) {
    |w| == m.Levels() && |os| == |calls|
    && forall k: nat {:trigger calls[k]} :: k < |calls| ==> at(k + 1) == Apply(m, calls[k], os[k], w, at(k))
  }

  /** From call `j` on nothing mapped the page. */
  lemma {:induction false} TraceSpares(m: Mode, calls: seq<Call>, os: seq<Outcome>, j: nat, n: nat, w: Vpn,
      at: nat -> seq<Leaf>, i: nat)
    requires Trace(m, calls, os, w, at) && j <= n <= |calls| && i < |at(j)|
    requires forall k {:trigger calls[k]} :: j <= k < |calls| ==> !Wrote(m, calls[k], os[k], i, w)
    ensures i < |at(n)| && SamePlace(at(n)[i], at(j)[i])
    decreases n
  {
    if j < n {
      TraceSpares(m, calls, os, j, n - 1, w, at, i);
      ApplySpares(m, calls[n - 1], os[n - 1], w, at(n - 1), i);
    }
  }

  lemma {:induction false} ApplyTurn(m: Mode, calls: seq<Call>, os: seq<Outcome>, w: Vpn, v: seq<Leaf>, k: nat)
    requires |w| == m.Levels() && |os| == |calls| && k < |calls|
    ensures ApplyAll(m, calls[..k + 1], os[..k + 1], w, v)
        == Apply(m, calls[k], os[k], w, ApplyAll(m, calls[..k], os[..k], w, v))
  {
    assert calls[..k + 1][..k] == calls[..k] && os[..k + 1][..k] == os[..k];
  }

  lemma {:induction false} ApplySparesAll(m: Mode, calls: seq<Call>, os: seq<Outcome>, j: nat, w: Vpn, v: seq<Leaf>,
      i: nat)
    requires |w| == m.Levels() && |os| == |calls| && j <= |calls| && i < |ApplyAll(m, calls[..j], os[..j], w, v)|
    requires forall k {:trigger calls[k]} :: j <= k < |calls| ==> !Wrote(m, calls[k], os[k], i, w)
    ensures i < |ApplyAll(m, calls, os, w, v)|
    ensures SamePlace(ApplyAll(m, calls, os, w, v)[i], ApplyAll(m, calls[..j], os[..j], w, v)[i])
  {
    var at := (k: nat) => if k <= |calls| then ApplyAll(m, calls[..k], os[..k], w, v) else [];
    forall k: nat {:trigger calls[k]} | k < |calls|
      ensures at(k + 1) == Apply(m, calls[k], os[k], w, at(k))
    {
      ApplyTurn(m, calls, os, w, v, k);
    }
    TraceSpares(m, calls, os, j, |calls|, w, at, i);
    assert calls[..|calls|] == calls && os[..|calls|] == os;
  }

  lemma {:induction false} LastLeaf(m: Mode, calls: seq<Call>, os: seq<Outcome>, j: nat, w: Vpn, v: seq<Leaf>, i: nat)
    requires |w| == m.Levels() && |os| == |calls| && j < |calls| && i < |ApplyAll(m, calls[..j], os[..j], w, v)|
    requires Wrote(m, calls[j], os[j], i, w)
    requires forall k {:trigger calls[k]} :: j < k < |calls| ==> !Wrote(m, calls[k], os[k], i, w)
    ensures i < |ApplyAll(m, calls, os, w, v)| && SamePlace(ApplyAll(m, calls, os, w, v)[i], NewLeaf(m, calls[j], w))
  {
    var n := j + 1;
    assert calls[..n][..j] == calls[..j] && os[..n][..j] == os[..j];
    assert ApplyAll(m, calls[..n], os[..n], w, v)
      == Apply(m, calls[j], os[j], w, ApplyAll(m, calls[..j], os[..j], w, v));
    ApplySparesAll(m, calls, os, n, w, v, i);
  }

  lemma {:induction false} ExecLast(m: Mode, y: Sys, calls: seq<Call>, n: nat)
    returns (y1: Sys, os: seq<Outcome>, o: Outcome)
    requires Usable(m, y) && LevelsOk(m, calls) && |calls| == n + 1
    ensures LevelsOk(m, calls[..n]) && (y1, os) == ExecAll(m, y, calls[..n]) && o == Exec(m, y1, calls[n]).1
    ensures ExecAll(m, y, calls).1 == os + [o]
  {
    y1, os, o := ExecAll(m, y, calls[..n]).0, ExecAll(m, y, calls[..n]).1,
      Exec(m, ExecAll(m, y, calls[..n]).0, calls[n]).1;
  }

  /** The first `j` calls of a run are a run with the same outcomes, and call `j` acts on what they leave. */
  lemma {:induction false} RunPrefix(m: Mode, y: Sys, calls: seq<Call>, j: nat)
    requires Usable(m, y) && LevelsOk(m, calls) && j < |calls|
    ensures LevelsOk(m, calls[..j]) && ExecAll(m, y, calls[..j]).1 == ExecAll(m, y, calls).1[..j]
    ensures ExecAll(m, y, calls).1[j] == Exec(m, ExecAll(m, y, calls[..j]).0, calls[j]).1
    decreases |calls|
  {
    var n := |calls| - 1;
    var y1, os, o := ExecLast(m, y, calls, n);
    if j < n {
      RunPrefix(m, y, calls[..n], j);
      assert calls[..n][..j] == calls[..j];
      assert (os + [o])[..j] == os[..j];
    }
  }

  lemma {:induction false} SpaceThere(m: Mode, y: Sys, calls: seq<Call>, j: nat, os: seq<Outcome>, w: Vpn)
    requires Usable(m, y) && WellFormed(m, y) && LevelsOk(m, calls) && RunOk(m, |y.roots|, calls)
    requires StartClear(m, y, calls)
    requires j < |calls| && os == ExecAll(m, y, calls).1 && calls[j].Maps() && os[j].Done? && |w| == m.Levels()
    ensures calls[j].space < |ApplyAll(m, calls[..j], os[..j], w, View(m, y, w))|
  {
    RunPrefix(m, y, calls, j);
    var y1, os1 := RunRefines(m, y, calls[..j]);
    assert View(m, y1, w) == ApplyAll(m, calls[..j], os1, w, View(m, y, w));
  }

  lemma {:induction false} LastWriterLeaf(m: Mode, y: Sys, calls: seq<Call>, y': Sys, os: seq<Outcome>, j: nat, i: nat,
      w: Vpn)
    requires Usable(m, y) && WellFormed(m, y) && LevelsOk(m, calls) && (y', os) == ExecAll(m, y, calls)
    requires RunOk(m, |y.roots|, calls) && StartClear(m, y, calls)
    requires |w| == m.Levels() && j < |calls| && Wrote(m, calls[j], os[j], i, w)
    requires forall k {:trigger calls[k]} :: j < k < |calls| ==> !Wrote(m, calls[k], os[k], i, w)
    ensures WellFormed(m, y') && i < |y'.roots| && SamePlace(View(m, y', w)[i], NewLeaf(m, calls[j], w))
  {
    SpaceThere(m, y, calls, j, os, w);
    LastLeaf(m, calls, os, j, w, View(m, y, w), i);
    var y1, os1 := RunRefines(m, y, calls);
    assert View(m, y1, w) == ApplyAll(m, calls, os1, w, View(m, y, w));
  }

  lemma {:induction false} LeafLeads(m: Mode, y: Sys, i: nat, x: nat, w: Vpn, leaf: Leaf)
    requires WellFormed(m, y) && Usable(m, y) && i < |y.roots| && w == VpnOf(m, x)
    requires SamePlace(View(m, y, w)[i], leaf)
    ensures VirtToPhys(m, y.s.mem, y.roots[i], x) == PhysOf(leaf, x)
  {
    ViewTranslates(m, y, i, x);
  }

  /** The last call of a run that mapped a page decides where the page leads: later updates change flags
      only, and calls that did not come to the page, or on other address spaces, change nothing. */
  lemma {:induction false} LastWriterWins(m: Mode, y: Sys, calls: seq<Call>, y': Sys, os: seq<Outcome>, j: nat, i: nat,
      x: nat, w: Vpn)
    requires Usable(m, y) && WellFormed(m, y) && LevelsOk(m, calls) && (y', os) == ExecAll(m, y, calls)
    requires RunOk(m, |y.roots|, calls) && StartClear(m, y, calls) && w == VpnOf(m, x)
    requires j < |calls| && Wrote(m, calls[j], os[j], i, w)
    requires forall k {:trigger calls[k]} :: j < k < |calls| ==> !Wrote(m, calls[k], os[k], i, w)
    ensures i < |y'.roots| && VirtToPhys(m, y'.s.mem, y'.roots[i], x) == PhysOf(NewLeaf(m, calls[j], w), x)
  {
    LastWriterLeaf(m, y, calls, y', os, j, i, w);
    LeafLeads(m, y', i, x, w, NewLeaf(m, calls[j], w));
  }

  /** A call that reported Ok mapped every page it covers, and a `map` that failed mapped none. */
  lemma {:induction false} WroteIff(m: Mode, c: Call, o: Outcome, i: nat, w: Vpn)
    requires |w| == m.Levels() && Counts(c, o) && c.Maps() && o.Done?
    ensures o.r.Ok? ==> (Wrote(m, c, o, i, w) <==> c.space == i && Covers(m, c, w))
    ensures o.r.Err? && c.MapOne? ==> !Wrote(m, c, o, i, w)
    ensures Wrote(m, c, o, i, w) ==> Covers(m, c, w)
  {
  }

  /** After every run a page that some call covers and reported Ok for leads where that call says, unless a
      later call on the address space covers it, whether it succeeds or not. */
  lemma {:induction false} LastOkWins(m: Mode, y: Sys, calls: seq<Call>, y': Sys, os: seq<Outcome>, j: nat, i: nat,
      x: nat, w: Vpn)
    requires Usable(m, y) && WellFormed(m, y) && LevelsOk(m, calls) && (y', os) == ExecAll(m, y, calls)
    requires RunOk(m, |y.roots|, calls) && StartClear(m, y, calls) && w == VpnOf(m, x) && j < |calls|
    requires Covers(m, calls[j], w) && calls[j].space == i && os[j].Done? && os[j].r.Ok?
    requires forall k {:trigger calls[k]} :: j < k < |calls| && calls[k].Maps() && calls[k].space == i ==>
        !Covers(m, calls[k], w)
    ensures i < |y'.roots| && VirtToPhys(m, y'.s.mem, y'.roots[i], x) == PhysOf(NewLeaf(m, calls[j], w), x)
  {
    var y1, os1 := RunRefines(m, y, calls);
    assert AllCount(calls, os);
    forall k {:trigger calls[k]} | j <= k < |calls| && calls[k].Maps() && os[k].Done?
      ensures Wrote(m, calls[k], os[k], i, w) ==> k == j
      ensures k == j ==> Wrote(m, calls[k], os[k], i, w)
    {
      WroteIff(m, calls[k], os[k], i, w);
    }
    LastWriterWins(m, y, calls, y', os, j, i, x, w);
  }

  // ---------- calls by address ----------

  function PageBytes(size: PageSize): nat {
    match size case Kb => 0x1000 case Mb => 0x20_0000 case Gb => 0x4000_0000 case Tb => 0x80_0000_0000
  }

  /** What a mapping call asks for, in whole pages: `len` bytes from the virtual address `va` on are to lead to
      those from the physical address `pa` on. */
  datatype Region = Region(va: nat, pa: nat, len: nat)

  function RegionOf(c: Call): Region
    requires c.Maps()
  {
    match c
    case MapOne(_, va, pa, size, _) => Region(va / PageBytes(size) * PageBytes(size), pa, PageBytes(size))
    case MapRange(_, va, start, end, size, _) =>
      var b := PageBytes(size);
      Region(va / b * b, start, if start <= end then (end - start + b - 1) / b * b else 0)
    case IdentityMapRange(_, start, end, _) =>
      var a, z := start / 0x1000 * 0x1000, (end + 0xfff) / 0x1000 * 0x1000;
      Region(a, a, if start <= end then z - a else 0)
  }

  /** How far the address lies behind the first one of the call; only the translated bits count. */
  function OffsetIn(m: Mode, c: Call, x: nat): int
    requires c.Maps()
  {
    x % VaLimit(m) - RegionOf(c).va % VaLimit(m)
  }

  predicate Reaches(m: Mode, c: Call, x: nat) {
    c.Maps() && 0 <= OffsetIn(m, c, x) < RegionOf(c).len
  }

  lemma {:induction false} ModParts(a: nat, s: nat, q: nat, v: nat)
    requires s > 0 && q > 0 && v == q * s && v > 0
    ensures a % v % s == a % s && a / s * s % v == a % v / s * s
  {
    var k, r := a / v, a % v;
    Regrouped(a, s, q, v, k, r, r / s, r % s);
  }

  lemma {:induction false} Regrouped(a: nat, s: nat, q: nat, v: nat, k: nat, r: nat, j: nat, z: nat)
    requires s > 0 && v == q * s && a == k * v + r && r < v && r == j * s + z && z < s
    ensures a % s == z && a / s * s % v == j * s
  {
    var h := k * q + j;
    assert h * s == k * v + j * s by {
      Distribute(k * q, j, s);
      assert k * q * s == k * (q * s);
    }
    DivModUnique(a, s, h, z);
    DivModUnique(h * s, v, k, j * s);
  }

  lemma {:induction false} PageDiv(m: Mode, a: nat, l: nat)
    requires l < m.Levels()
    ensures Page(m, a, l) == a % VaLimit(m) / Size(l) && a % VaLimit(m) % Size(l) == a % Size(l)
    ensures a / Size(l) * Size(l) % VaLimit(m) == a % VaLimit(m) / Size(l) * Size(l)
  {
    Sizes();
    var s, r := Size(l), a % VaLimit(m);
    TimesIs(r / s, s);
    PageExact(m, a, r / s, r % s, l);
    ModParts(a, s, VaLimit(m) / s, VaLimit(m));
  }

  lemma {:induction false} RegionIs(m: Mode, c: Call)
    requires c.Maps() && ArgsOk(m, c)
    ensures var r := RegionOf(c);
      && r.va == c.Va() / Size(c.Level()) * Size(c.Level()) && r.pa == c.Pa()
      && r.len == c.Pages() * Size(c.Level())
  {
    Sizes();
    if !c.IdentityMapRange? {
      assert PageBytes(c.size) == Size(c.Level());
    }
    if c.MapRange? {
      WholePages(c.end - c.start, PageBytes(c.size));
    }
  }

  lemma {:induction false} WholePages(n: nat, b: nat)
    requires b > 0
    ensures (n + b - 1) / b == DivCeil(n, b)
  {
    var q, r := n / b, n % b;
    if r == 0 {
      DivModUnique(n + b - 1, b, q, b - 1);
    } else {
      Distribute(q, 1, b);
      DivModUnique(n + b - 1, b, q + 1, r - 1);
    }
  }

  lemma {:induction false} InBlock(x: nat, s: nat, first: nat, n: nat)
    requires s > 0
    ensures first <= x / s < first + n <==> 0 <= x - first * s < n * s
    ensures first <= x / s ==> x - first * s == (x / s - first) * s + x % s
  {
    var q := x / s;
    assert x == q * s + x % s;
    if first <= q {
      assert q * s == first * s + (q - first) * s;
      if q - first < n {
        MulLe(q - first + 1, n, s);
      } else {
        MulLe(n, q - first, s);
      }
    } else {
      MulLe(q + 1, first, s);
    }
  }

  lemma {:induction false} RangeLeads(m: Mode, va: nat, pa: nat, n: nat, l: nat, x: nat, off: int)
    requires l < m.Levels() && pa % Size(l) == 0 && off == x % VaLimit(m) - va / Size(l) * Size(l) % VaLimit(m)
    ensures Page(m, va, l) <= Page(m, x, l) < Page(m, va, l) + n <==> 0 <= off < n * Size(l)
    ensures Page(m, va, l) <= Page(m, x, l) ==>
      (pa / 4096 + Times(Page(m, x, l) - Page(m, va, l), Span(l))) * 4096 + x % Size(l) == pa + off
  {
    var first := Page(m, va, l);
    PageDiv(m, x, l);
    PageDiv(m, va, l);
    InBlock(x % VaLimit(m), Size(l), first, n);
    if first <= Page(m, x, l) {
      var d := Page(m, x, l) - first;
      AlignedFrame(pa, l);
      FrameAligned(pa / 4096, d, l);
      TimesIs(d, Size(l));
    }
  }

  /** A mapping call covers the pages of exactly the addresses it reaches, and leads each of them as far behind
      its first physical address as it lies behind the first virtual one. */
  lemma {:induction false} CallLeads(m: Mode, c: Call, x: nat, w: Vpn)
    requires c.Maps() && ArgsOk(m, c) && w == VpnOf(m, x)
    ensures Covers(m, c, w) <==> Reaches(m, c, x)
    ensures Covers(m, c, w) ==> PhysOf(NewLeaf(m, c, w), x) == Some(RegionOf(c).pa + OffsetIn(m, c, x))
  {
    RegionIs(m, c);
    PageNoOf(m, x, c.Level());
    RangeLeads(m, c.Va(), c.Pa(), c.Pages(), c.Level(), x, OffsetIn(m, c, x));
  }

  lemma {:induction false} NoneCovers(m: Mode, calls: seq<Call>, j: nat, i: nat, x: nat, w: Vpn)
    requires w == VpnOf(m, x) && forall k {:trigger calls[k]} :: 0 <= k < |calls| ==> ArgsOk(m, calls[k])
    requires forall k {:trigger calls[k]} :: j < k < |calls| && calls[k].Maps() && calls[k].space == i ==>
        !Reaches(m, calls[k], x)
    ensures forall k {:trigger calls[k]} :: j < k < |calls| && calls[k].Maps() && calls[k].space == i ==>
        !Covers(m, calls[k], w)
  {
    forall k {:trigger calls[k]} | j < k < |calls| && calls[k].Maps() && calls[k].space == i
      ensures !Covers(m, calls[k], w)
    {
      CallLeads(m, calls[k], x, w);
    }
  }

  /** After every run an address that a call reached and reported Ok for leads where that call asked, unless a
      later call on the address space reaches it, whether that succeeds or not. */
  lemma {:induction false} LastOkLeads(m: Mode, y: Sys, calls: seq<Call>, y': Sys, os: seq<Outcome>, j: nat, i: nat,
      x: nat)
    requires Usable(m, y) && WellFormed(m, y) && LevelsOk(m, calls) && (y', os) == ExecAll(m, y, calls)
    requires RunOk(m, |y.roots|, calls) && StartClear(m, y, calls) && j < |calls|
    requires Reaches(m, calls[j], x) && calls[j].space == i && os[j].Done? && os[j].r.Ok?
    requires forall k {:trigger calls[k]} :: j < k < |calls| && calls[k].Maps() && calls[k].space == i ==>
        !Reaches(m, calls[k], x)
    ensures i < |y'.roots|
    ensures VirtToPhys(m, y'.s.mem, y'.roots[i], x) == Some(RegionOf(calls[j]).pa + OffsetIn(m, calls[j], x))
  {
    var w := VpnOf(m, x);
    CallLeads(m, calls[j], x, w);
    NoneCovers(m, calls, j, i, x, w);
    LastOkWins(m, y, calls, y', os, j, i, x, w);
  }

  lemma {:induction false} UnmovedLeaf(m: Mode, y: Sys, calls: seq<Call>, y': Sys, os: seq<Outcome>, i: nat, w: Vpn)
    requires Usable(m, y) && WellFormed(m, y) && LevelsOk(m, calls) && (y', os) == ExecAll(m, y, calls)
    requires RunOk(m, |y.roots|, calls) && StartClear(m, y, calls) && |w| == m.Levels() && i < |y.roots|
    requires forall k {:trigger calls[k]} :: 0 <= k < |calls| ==> !Wrote(m, calls[k], os[k], i, w)
    ensures WellFormed(m, y') && i < |y'.roots| && SamePlace(View(m, y', w)[i], View(m, y, w)[i])
  {
    assert ApplyAll(m, calls[..0], os[..0], w, View(m, y, w)) == View(m, y, w);
    ApplySparesAll(m, calls, os, 0, w, View(m, y, w), i);
    var y1, os1 := RunRefines(m, y, calls);
    assert View(m, y1, w) == ApplyAll(m, calls, os1, w, View(m, y, w));
  }

  /** A page that no call of the run mapped leads where it did. */
  lemma {:induction false} Unmoved(m: Mode, y: Sys, calls: seq<Call>, y': Sys, os: seq<Outcome>, i: nat, x: nat, w: Vpn)
    requires Usable(m, y) && WellFormed(m, y) && LevelsOk(m, calls) && (y', os) == ExecAll(m, y, calls)
    requires RunOk(m, |y.roots|, calls) && StartClear(m, y, calls) && w == VpnOf(m, x) && i < |y.roots|
    requires forall k {:trigger calls[k]} :: 0 <= k < |calls| ==> !Wrote(m, calls[k], os[k], i, w)
    ensures i < |y'.roots| && VirtToPhys(m, y'.s.mem, y'.roots[i], x) == VirtToPhys(m, y.s.mem, y.roots[i], x)
  {
    UnmovedLeaf(m, y, calls, y', os, i, w);
    LeafLeads(m, y', i, x, w, View(m, y, w)[i]);
    ViewTranslates(m, y, i, x);
  }

  /** An address that no call on its address space reaches leads where it did. */
  lemma {:induction false} Unreached(m: Mode, y: Sys, calls: seq<Call>, y': Sys, os: seq<Outcome>, i: nat, x: nat)
    requires Usable(m, y) && WellFormed(m, y) && LevelsOk(m, calls) && (y', os) == ExecAll(m, y, calls)
    requires RunOk(m, |y.roots|, calls) && StartClear(m, y, calls) && i < |y.roots|
    requires forall k {:trigger calls[k]} :: 0 <= k < |calls| && calls[k].Maps() && calls[k].space == i ==>
        !Reaches(m, calls[k], x)
    ensures i < |y'.roots| && VirtToPhys(m, y'.s.mem, y'.roots[i], x) == VirtToPhys(m, y.s.mem, y.roots[i], x)
  {
    var w := VpnOf(m, x);
    var y1, os1 := RunRefines(m, y, calls);
    assert AllCount(calls, os);
    forall k {:trigger calls[k]} | 0 <= k < |calls|
      ensures !Wrote(m, calls[k], os[k], i, w)
    {
      if Wrote(m, calls[k], os[k], i, w) {
        WroteIff(m, calls[k], os[k], i, w);
        CallLeads(m, calls[k], x, w);
        assert false;
      }
    }
    Unmoved(m, y, calls, y', os, i, x, w);
  }

  // ---------- the walkers at work ----------

  function RootsOf(spaces: seq<PageTableWalker>): (r: seq<nat>)
    ensures |r| == |spaces| && forall i {:trigger r[i]} :: 0 <= i < |r| ==> r[i] == spaces[i].rpt
  {
    seq(|spaces|, i requires 0 <= i < |spaces| => spaces[i].rpt)
  }

  /** All address spaces, over one memory and one frame allocator. */
  class AddressSpaces {
    const m: Mode
    const ram: PhysMemory
    const gfa: BumpFrameAllocator
    var spaces: seq<PageTableWalker>

    ghost function State(): Sys
      reads this, ram, gfa
    {
      Sys(St(ram.frames, gfa.Gfa()), RootsOf(spaces))
    }

    ghost predicate Valid()
      reads this, ram, gfa
    {
      && Usable(m, State())
      && forall i {:trigger spaces[i]} :: 0 <= i < |spaces| ==> spaces[i].m == m && spaces[i].ram == ram
    }

    constructor (kernel: PageTableWalker, gfa: BumpFrameAllocator)
      requires StOk(kernel.m, kernel.State(gfa)) && kernel.rpt < kernel.m.PpnLimit()
      ensures Valid() && m == kernel.m && ram == kernel.ram && this.gfa == gfa && spaces == [kernel]
    {
      m, ram, this.gfa, spaces := kernel.m, kernel.ram, gfa, [kernel];
    }

    method Make() returns (ghost o: Outcome)
      requires Valid()
      modifies this, ram, gfa
      ensures Valid() && (State(), o) == MakeSpace(m, old(State()))
    {
      assert State().roots[0] == spaces[0].rpt < m.PpnLimit();
      var w := NewRoot(m, ram, gfa);
      if w == null {
        return Done(Err(AllocationFailed), 0);
      }
      ghost var g := gfa.Gfa();
      var r := w.CopyKernelMappings(spaces[0].rpt, gfa);
      MakeTurn(m, old(State()), w.rpt, g, w.State(gfa), r);
      if r.Ok? {
        assert RootsOf(spaces + [w]) == RootsOf(spaces) + [w.rpt];
        spaces := spaces + [w];
      }
      o := Done(r, 0);
    }

    /** The walker of an address space that exists. */
    method Walker(i: nat) returns (w: PageTableWalker)
      requires Valid() && i < |spaces|
      ensures w == spaces[i] && w.m == m && w.ram == ram && w.Usable(gfa) && w.rpt == State().roots[i]
    {
      w := spaces[i];
      assert State().roots[i] < m.PpnLimit();
    }

    /** The pages of a mapping call, mapped by the walker of its address space. */
    method MapWith(w: PageTableWalker, c: Call, ghost l: nat) returns (r: MapResult, ghost k: nat)
      requires w.Usable(gfa) && ArgsOk(w.m, c) && c.Maps() && l == c.Level()
      modifies w.ram, gfa
      ensures w.Usable(gfa)
      ensures (w.State(gfa), r, k) == MapPages(w.m, old(w.State(gfa)), w.rpt, c.Va(), c.Pa(), 0, c.Pages(), l, c.flags)
    {
      match c {
        case MapOne(_, va, pa, size, flags) =>
          r := w.MapNth(va, pa, size, flags, gfa, va, pa, 0, 1, l);
          k := if r.Ok? then 1 else 0;
        case MapRange(_, va, start, end, size, flags) =>
          r, k := w.MapRange(va, start, end, size, flags, gfa);
        case IdentityMapRange(_, start, end, flags) =>
          r, k := w.IdentityMapRange(start, end, flags, gfa);
      }
    }

    /** One mapping call on an address space that exists. */
    method DoMap(c: Call) returns (ghost o: Outcome)
      requires Valid() && ArgsOk(m, c) && c.Maps() && c.space < |spaces|
      modifies ram, gfa
      ensures Valid() && (State(), o) == Exec(m, old(State()), c)
    {
      var w := Walker(c.space);
      ghost var k;
      var r;
      r, k := MapWith(w, c, c.Level());
      o := Done(r, k);
    }

    /** One permission update on an address space that exists. */
    method DoUpdate(c: Call) returns (ghost o: Outcome)
      requires Valid() && ArgsOk(m, c) && c.UpdateMapping? && c.space < |spaces|
      modifies ram
      ensures Valid() && (State(), o) == Exec(m, old(State()), c)
    {
      var w := Walker(c.space);
      ghost var k;
      var r;
      r, k := w.UpdateMapping(c.va, c.len, c.flags);
      o := Done(r, k);
    }

    /** Makes one call on whatever address space it names. */
    method Do(c: Call) returns (ghost o: Outcome)
      requires Valid() && ArgsOk(m, c)
      modifies this, ram, gfa
      ensures Valid() && (State(), o) == Exec(m, old(State()), c)
    {
      if c.NewSpace? {
        o := Make();
      } else if c.space >= |spaces| {
        o := NoSpace;
      } else if c.UpdateMapping? {
        o := DoUpdate(c);
      } else {
        o := DoMap(c);
      }
    }

    /** Makes all the calls in order: every address space stays well formed and apart from the others, and
        each page of each of them leads where the calls say. */
    method Execute(calls: seq<Call>) returns (ghost os: seq<Outcome>)
      requires Valid() && WellFormed(m, State()) && LevelsOk(m, calls) && RunOk(m, |spaces|, calls)
      requires StartClear(m, State(), calls)
      modifies this, ram, gfa
      ensures Valid() && (State(), os) == ExecAll(m, old(State()), calls)
      ensures RunGood(m, old(State()), calls, State(), os)
    {
      ghost var y := State();
      ghost var y', os' := RunRefines(m, y, calls);
      os := [];
      for i := 0 to |calls|
        invariant Valid() && (State(), os) == ExecAll(m, y, calls[..i])
      {
        assert ArgsOk(m, calls[i]);
        assert calls[..i + 1][..i] == calls[..i] && calls[..i + 1][i] == calls[i];
        ghost var o := Do(calls[i]);
        os := os + [o];
      }
      assert calls[..|calls|] == calls;
    }
  }
}
