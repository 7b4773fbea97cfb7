/** `map` by address, `map_range`, and what they do to `virt_to_phys`. */
module Ranges {
  import opened Arith
  import opened Paging
  import opened Addr
  import opened Mapping
  import opened Wrappers

  predicate Finds(h: Hit, l: nat, e: Entry) {
    h.Hit? && h.level == l && h.entry == e
  }

  /** Exactly the `n` pages of level `target` from page `first` on now lead to leaves with
      consecutive frames from `ppn`. */
  ghost predicate RangeRedirected(m: Mode, mem: Frames, mem': Frames, root: nat, first: nat, n: nat, target: nat,
      ppn: nat, flags: Flags)
    requires Ram(m, mem) && Ram(m, mem') && root < m.PpnLimit() && target < m.Levels()
  {
    forall w: Vpn {:trigger Redirect(m, mem, mem', root, w, first, n, target, ppn, flags)} ::
      |w| == m.Levels() ==> Redirect(m, mem, mem', root, w, first, n, target, ppn, flags)
  }

  ghost predicate Redirect(m: Mode, mem: Frames, mem': Frames, root: nat, w: Vpn, first: nat, n: nat, target: nat,
      ppn: nat, flags: Flags)
    requires Ram(m, mem) && Ram(m, mem') && root < m.PpnLimit() && target < |w| == m.Levels()
  {
    var d := PageNo(w, target) - first;
    if 0 <= d < n then Finds(WalkRoot(m, mem', root, w), target, Entry(ppn + Times(d, Span(target)), flags + {VALID}))
    else WalkRoot(m, mem', root, w) == WalkRoot(m, mem, root, w)
  }

  /** No leaf larger than the pages of a range lies above one of them. */
  ghost predicate RangeClear(m: Mode, mem: Frames, root: nat, first: nat, n: nat, target: nat)
    requires Ram(m, mem) && root < m.PpnLimit() && target < m.Levels()
  {
    forall w: Vpn {:trigger NoLargerLeaf(m, mem, root, w, target)} ::
      |w| == m.Levels() && first <= PageNo(w, target) < first + n ==> NoLargerLeaf(m, mem, root, w, target)
  }

  lemma {:induction false} RedirectsOne(m: Mode, mem: Frames, mem': Frames, root: nat, v: Vpn, target: nat, f: nat,
      ppn: nat, flags: Flags)
    requires Ram(m, mem) && Ram(m, mem') && root < m.PpnLimit() && target < |v| == m.Levels()
    requires Redirected(m, mem, mem', root, v, target, f, Entry(ppn, flags + {VALID}))
    ensures RangeRedirected(m, mem, mem', root, PageNo(v, target), 1, target, ppn, flags)
  {
    forall w: Vpn {:trigger Redirect(m, mem, mem', root, w, PageNo(v, target), 1, target, ppn, flags)} | |w|
      == m.Levels()
      ensures Redirect(m, mem, mem', root, w, PageNo(v, target), 1, target, ppn, flags)
    {
      PageNoSame(v, w, target);
    }
  }

  /** One more page at the end of a redirected range. */
  lemma {:induction false} RedirectJoin(m: Mode, mem: Frames, mem1: Frames, mem2: Frames, root: nat, first: nat, n: nat,
      target: nat, ppn: nat, flags: Flags)
    requires Ram(m, mem) && Ram(m, mem1) && Ram(m, mem2) && root < m.PpnLimit() && target < m.Levels()
    requires RangeRedirected(m, mem, mem1, root, first, n, target, ppn, flags)
    requires RangeRedirected(m, mem1, mem2, root, first + n, 1, target, ppn + Times(n, Span(target)), flags)
    ensures RangeRedirected(m, mem, mem2, root, first, n + 1, target, ppn, flags)
  {
    forall w: Vpn {:trigger WalkRoot(m, mem2, root, w)} | |w| == m.Levels()
      ensures Redirect(m, mem, mem2, root, w, first, n + 1, target, ppn, flags)
    {
      assert Redirect(m, mem, mem1, root, w, first, n, target, ppn, flags);
      assert Redirect(m, mem1, mem2, root, w, first + n, 1, target, ppn + Times(n, Span(target)), flags);
    }
  }

  /** Mapping pages of a range leaves no larger leaf above the others. */
  lemma {:induction false} StillClear(m: Mode, mem: Frames, mem1: Frames, root: nat, first: nat, n: nat, k: nat,
      target: nat, ppn: nat, flags: Flags, w: Vpn)
    requires Ram(m, mem) && Ram(m, mem1) && root < m.PpnLimit() && target < |w| == m.Levels()
    requires RangeRedirected(m, mem, mem1, root, first, k, target, ppn, flags)
    requires RangeClear(m, mem, root, first, n, target) && first <= PageNo(w, target) < first + n
    ensures NoLargerLeaf(m, mem1, root, w, target)
  {
    assert Redirect(m, mem, mem1, root, w, first, k, target, ppn, flags);
    assert NoLargerLeaf(m, mem, root, w, target);
  }

  /** The `n` pages from `va` on, and the frames from `pa` on, are aligned and within bounds. */
  predicate RangeOk(m: Mode, va: nat, pa: nat, n: nat, target: nat)
    requires target < m.Levels()
  {
    && pa % Size(target) == 0
    && pa / 4096 + Times(n, Span(target)) <= m.PpnLimit()
    && Page(m, va, target) + n <= Span(m.Levels() - target)
  }

  /** `div_ceil` of a length by a page size. */
  function PagesIn(len: nat, l: nat): nat {
    DivCeil(len, Size(l))
  }

  lemma {:induction false} NthPage(m: Mode, va: nat, pa: nat, i: nat, n: nat, target: nat)
    requires target < m.Levels() && RangeOk(m, va, pa, n, target) && i < n
    ensures PageNo(VpnOf(m, va + Times(i, Size(target))), target) == Page(m, va, target) + i
    ensures (pa + Times(i, Size(target))) / 4096 == pa / 4096 + Times(i, Span(target)) < m.PpnLimit()
    ensures (pa / 4096 + Times(i, Span(target))) % Span(target) == 0
  {
    TimesIs(i, Size(target));
    TimesIs(i, Span(target));
    TimesIs(n, Span(target));
    PageAdd(m, va, i, target);
    PageNoOf(m, va + Times(i, Size(target)), target);
    AlignedFrame(pa, target);
    Multiples(pa / 4096, i, n, Span(target));
  }

  /** Table `p` lies on the way to one of the `n` pages from page `first` on. */
  ghost predicate Leads(m: Mode, p: seq<Index>, first: nat, n: nat, target: nat)
    requires target < m.Levels()
  {
    exists w: Vpn {:trigger Suffix(w, p, target)} ::
      |w| == m.Levels() && first <= PageNo(w, target) < first + n && Suffix(w, p, target)
  }

  /** Every frame handed out became a table on the way to one of the `tried` pages, and the tables of the
      first `k` pages are there. */
  ghost predicate RangeTables(m: Mode, s: St, t: Tree, s': St, t': Tree, first: nat, k: nat, tried: nat, target: nat)
    requires target < m.Levels()
  {
    && s'.gfa.ptr + 4096 * |t| == s.gfa.ptr + 4096 * |t'|
    && (forall p {:trigger Leads(m, p, first, tried, target)} :: p in t' && p !in t ==>
      Leads(m, p, first, tried, target))
    && (forall w: Vpn {:trigger HasTable(t', w, target)} ::
          |w| == m.Levels() && first <= PageNo(w, target) < first + k ==> HasTable(t', w, target))
  }

  /** The table of level `target` for page `w` is there. */
  predicate HasTable(t: Tree, w: Vpn, target: nat)
    requires target < |w|
  {
    w[target + 1..] in t
  }

  /** The entry of page `page` is taken. */
  ghost predicate BlockedAt(m: Mode, mem: Frames, t: Tree, page: nat, target: nat, flags: Flags)
    requires Wf(m, mem, t) && target < m.Levels()
  {
    exists w: Vpn {:trigger Blocked(m, mem, t, w, target, flags)} ::
      |w| == m.Levels() && PageNo(w, target) == page && Blocked(m, mem, t, w, target, flags)
  }

  /** No entry of the `n` pages from page `first` on is taken. */
  ghost predicate RangeFree(m: Mode, mem: Frames, t: Tree, first: nat, n: nat, target: nat, flags: Flags)
    requires Wf(m, mem, t) && target < m.Levels()
  {
    forall w: Vpn {:trigger Blocked(m, mem, t, w, target, flags)} ::
      |w| == m.Levels() && first <= PageNo(w, target) < first + n ==> !Blocked(m, mem, t, w, target, flags)
  }

  /** Why mapping stopped after `k` pages: the next one was taken, or no frame was left for a table. */
  ghost predicate RangeCause(m: Mode, s: St, t: Tree, s': St, r: MapResult, first: nat, k: nat, target: nat,
      flags: Flags)
    requires Wf(m, s.mem, t) && target < m.Levels()
  {
    && RangeFree(m, s.mem, t, first, k, target, flags)
    && (r.Err? ==> (r.error.AlreadyMapped? <==> BlockedAt(m, s.mem, t, first + k, target, flags)))
    && (r == Err(AllocationFailed) ==> Exhausted(s'.gfa, 1))
    && r != Err(CorruptedPageTable)
  }

  /** The outcome of mapping `n` pages from page `first` to the frames from `ppn`: the first `k`
      pages are redirected and nothing else is, where `k` is all of them on Ok. */
  ghost predicate RangeEffect(m: Mode, s: St, t: Tree, s': St, t': Tree, r: MapResult, first: nat, n: nat, k: nat,
                              target: nat, ppn: nat, flags: Flags) {
    && target < m.Levels()
    && Kept(m, s, t, s', t')
    && RangeRedirected(m, s.mem, s'.mem, t[[]], first, k, target, ppn, flags)
    && (if r.Ok? then k == n else k < n)
    && RangeTables(m, s, t, s', t', first, k, if r.Ok? then n else k + 1, target)
    && RangeCause(m, s, t, s', r, first, k, target, flags)
  }

  lemma {:induction false} RangeNone(m: Mode, s: St, t: Tree, first: nat, target: nat, ppn: nat, flags: Flags)
    requires Space(m, s, t) && target < m.Levels()
    ensures RangeEffect(m, s, t, s, t, Ok, first, 0, 0, target, ppn, flags)
  {
  }

  /** Whether an entry is taken depends on its page only. */
  lemma {:induction false} BlockedSame(m: Mode, mem: Frames, t: Tree, v: Vpn, w: Vpn, target: nat, flags: Flags)
    requires Wf(m, mem, t) && target < |v| == |w| == m.Levels() && PageNo(v, target) == PageNo(w, target)
    ensures Blocked(m, mem, t, v, target, flags) <==> Blocked(m, mem, t, w, target, flags)
  {
    PageNoSame(v, w, target);
    var g, h := WalkRoot(m, mem, t[[]], v), WalkRoot(m, mem, t[[]], w);
    if g.Hit? && g.level == target {
      WalkShared(m, mem, t[[]], |v| - 1, w, v);
    } else if h.Hit? && h.level == target {
      WalkShared(m, mem, t[[]], |v| - 1, v, w);
    }
  }

  lemma {:induction false} OneTables(m: Mode, s: St, t: Tree, s': St, t': Tree, v: Vpn, target: nat, k: nat)
    requires target < |v| == m.Levels() && Extends(m, s, t, s', t', v, target) && k <= 1
    requires k == 1 ==> v[target + 1..] in t'
    ensures RangeTables(m, s, t, s', t', PageNo(v, target), k, 1, target)
  {
    forall w: Vpn {:trigger HasTable(t', w, target)}
      | |w| == m.Levels() && PageNo(v, target) <= PageNo(w, target) < PageNo(v, target) + k
      ensures HasTable(t', w, target)
    {
      PageNoSame(v, w, target);
      assert w[target..][1..] == w[target + 1..] && v[target..][1..] == v[target + 1..];
    }
    forall p {:trigger Leads(m, p, PageNo(v, target), 1, target)} | p in t' && p !in t
      ensures Leads(m, p, PageNo(v, target), 1, target)
    {
      assert Suffix(v, p, target);
    }
  }

  lemma {:induction false} OneCause(m: Mode, s: St, t: Tree, s': St, t': Tree, r: MapResult, v: Vpn, ppn: nat,
      target: nat, flags: Flags)
    requires target < |v| == m.Levels() && MapEffect(m, s, t, s', t', r, v, ppn, target, flags)
    ensures RangeCause(m, s, t, s', r, PageNo(v, target), if r.Ok? then 1 else 0, target, flags)
  {
    forall w: Vpn {:trigger Blocked(m, s.mem, t, w, target, flags)}
      | |w| == m.Levels() && PageNo(w, target) == PageNo(v, target)
      ensures Blocked(m, s.mem, t, w, target, flags) <==> r == Err(AlreadyMapped)
    {
      BlockedSame(m, s.mem, t, v, w, target, flags);
    }
    assert Blocked(m, s.mem, t, v, target, flags) ==> BlockedAt(m, s.mem, t, PageNo(v, target), target, flags);
  }

  /** A single `map` as the mapping of a range of one page. */
  lemma {:induction false} MapOne(m: Mode, s: St, t: Tree, s': St, t': Tree, r: MapResult, v: Vpn, ppn: nat,
      k: nat, target: nat, flags: Flags)
    requires target < |v| == m.Levels() && ppn < m.PpnLimit() && MapEffect(m, s, t, s', t', r, v, ppn, target, flags)
    requires k == if r.Ok? then 1 else 0
    ensures RangeEffect(m, s, t, s', t', r, PageNo(v, target), 1, k, target, ppn, flags)
  {
    OneTables(m, s, t, s', t', v, target, k);
    OneCause(m, s, t, s', t', r, v, ppn, target, flags);
    if r.Ok? {
      RedirectsOne(m, s.mem, s'.mem, t[[]], v, target, t'[v[target + 1..]], ppn, flags);
    }
  }

  lemma {:induction false} LeadsMore(m: Mode, p: seq<Index>, first: nat, n: nat, first': nat, n': nat, target: nat)
    requires target < m.Levels() && Leads(m, p, first, n, target) && first' <= first && first + n <= first' + n'
    ensures Leads(m, p, first', n', target)
  {
    var w: Vpn :| |w| == m.Levels() && first <= PageNo(w, target) < first + n && Suffix(w, p, target);
    assert Suffix(w, p, target);
  }

  lemma {:induction false} TablesJoin(m: Mode, s: St, t: Tree, s1: St, t1: Tree, s2: St, t2: Tree, first: nat, i: nat,
      k: nat, target: nat)
    requires target < m.Levels() && Kept(m, s1, t1, s2, t2)
    requires RangeTables(m, s, t, s1, t1, first, i, i, target)
    requires RangeTables(m, s1, t1, s2, t2, first + i, k, 1, target)
    ensures RangeTables(m, s, t, s2, t2, first, i + k, i + 1, target)
  {
    forall p {:trigger Leads(m, p, first, i + 1, target)} | p in t2 && p !in t
      ensures Leads(m, p, first, i + 1, target)
    {
      assert if p in t1 then Leads(m, p, first, i, target) else Leads(m, p, first + i, 1, target);
      if p in t1 {
        LeadsMore(m, p, first, i, first, i + 1, target);
      } else {
        LeadsMore(m, p, first + i, 1, first, i + 1, target);
      }
    }
    forall w: Vpn {:trigger HasTable(t2, w, target)} | |w| == m.Levels() && first <= PageNo(w, target) < first + i + k
      ensures HasTable(t2, w, target)
    {
      assert PageNo(w, target) < first + i ==> HasTable(t1, w, target);
    }
  }

  /** Mapping some pages of a range takes no entry of the others. */
  lemma {:induction false} StillFree(m: Mode, s: St, t: Tree, s1: St, t1: Tree, first: nat, i: nat, target: nat,
      ppn: nat, flags: Flags, w: Vpn)
    requires RangeEffect(m, s, t, s1, t1, Ok, first, i, i, target, ppn, flags)
    requires |w| == m.Levels() && !(first <= PageNo(w, target) < first + i)
    ensures Blocked(m, s1.mem, t1, w, target, flags) <==> Blocked(m, s.mem, t, w, target, flags)
  {
    assert Redirect(m, s.mem, s1.mem, t[[]], w, first, i, target, ppn, flags);
    assert w[target..] in t1 && w[target..] !in t ==> Leads(m, w[target..], first, i, target);
  }

  lemma {:induction false} CauseJoin(m: Mode, s: St, t: Tree, s1: St, t1: Tree, s2: St, r: MapResult, first: nat,
      i: nat, target: nat, ppn: nat, flags: Flags)
    requires RangeEffect(m, s, t, s1, t1, Ok, first, i, i, target, ppn, flags)
    requires RangeCause(m, s1, t1, s2, r, first + i, if r.Ok? then 1 else 0, target, flags)
    ensures RangeCause(m, s, t, s2, r, first, if r.Ok? then i + 1 else i, target, flags)
  {
    forall w: Vpn {:trigger Blocked(m, s.mem, t, w, target, flags)}
      | |w| == m.Levels() && PageNo(w, target) == first + i
      ensures Blocked(m, s1.mem, t1, w, target, flags) <==> Blocked(m, s.mem, t, w, target, flags)
    {
      StillFree(m, s, t, s1, t1, first, i, target, ppn, flags, w);
    }
    if r.Err? && BlockedAt(m, s1.mem, t1, first + i, target, flags) {
      var w: Vpn :| |w| == m.Levels() && PageNo(w, target) == first + i && Blocked(m, s1.mem, t1, w, target, flags);
      StillFree(m, s, t, s1, t1, first, i, target, ppn, flags, w);
    }
  }

  lemma {:induction false} RedirectAppend(m: Mode, mem: Frames, mem1: Frames, mem2: Frames, root: nat, first: nat,
      i: nat, k: nat, target: nat, ppn: nat, flags: Flags)
    requires Ram(m, mem) && Ram(m, mem1) && Ram(m, mem2) && root < m.PpnLimit() && target < m.Levels() && k <= 1
    requires RangeRedirected(m, mem, mem1, root, first, i, target, ppn, flags)
    requires RangeRedirected(m, mem1, mem2, root, first + i, k, target, ppn + Times(i, Span(target)), flags)
    ensures RangeRedirected(m, mem, mem2, root, first, i + k, target, ppn, flags)
  {
    if k == 1 {
      RedirectJoin(m, mem, mem1, mem2, root, first, i, target, ppn, flags);
    } else {
      RedirectNothing(m, mem, mem1, mem2, root, first, i, target, ppn, flags, first + i, ppn + Times(i, Span(target)));
    }
  }

  lemma {:induction false} RangeAppend(m: Mode, s: St, t: Tree, s1: St, t1: Tree, s2: St, t2: Tree, r: MapResult,
      first: nat, i: nat, d: nat, k: nat, target: nat, ppn: nat, flags: Flags)
    requires d == (if r.Ok? then 1 else 0) && k == i + d
    requires RangeEffect(m, s, t, s1, t1, Ok, first, i, i, target, ppn, flags)
    requires RangeEffect(m, s1, t1, s2, t2, r, first + i, 1, d, target, ppn + Times(i, Span(target)), flags)
    ensures RangeEffect(m, s, t, s2, t2, r, first, i + 1, k, target, ppn, flags)
  {
    KeptTwice(m, s, t, s1, t1, s2, t2);
    TablesJoin(m, s, t, s1, t1, s2, t2, first, i, d, target);
    CauseJoin(m, s, t, s1, t1, s2, r, first, i, target, ppn, flags);
    RedirectAppend(m, s.mem, s1.mem, s2.mem, t[[]], first, i, d, target, ppn, flags);
  }

  /** The next `map` of a `map_range` loop that has mapped `i` of `n` pages. */
  lemma {:induction false} RangeStep(m: Mode, s: St, t: Tree, s1: St, t1: Tree, s2: St, t2: Tree, r: MapResult,
                                     first: nat, ppn: nat, i: nat, d: nat, k: nat, target: nat, flags: Flags, v: Vpn,
                                       p: nat)
    requires target < |v| == m.Levels() && d == (if r.Ok? then 1 else 0) && k == i + d
    requires RangeEffect(m, s, t, s1, t1, Ok, first, i, i, target, ppn, flags)
    requires PageNo(v, target) == first + i && p == ppn + Times(i, Span(target)) && p < m.PpnLimit()
    requires MapEffect(m, s1, t1, s2, t2, r, v, p, target, flags)
    ensures RangeEffect(m, s, t, s2, t2, r, first, i + 1, k, target, ppn, flags)
  {
    MapOne(m, s1, t1, s2, t2, r, v, p, d, target, flags);
    RangeAppend(m, s, t, s1, t1, s2, t2, r, first, i, d, k, target, ppn, flags);
  }

  /** The loop of `map_range` from page `i` on: the state it leaves, its result, and the number of pages
      mapped before it stopped. */
  function MapPages(m: Mode, s: St, root: nat, va: nat, pa: nat, i: nat, n: nat, target: nat,
      flags: Flags): (r: (St, MapResult, nat))
    requires StOk(m, s) && root < m.PpnLimit() && target < m.Levels()
    ensures StOk(m, r.0) && r.0.gfa.end == s.gfa.end && r.0.gfa.ptr >= s.gfa.ptr
    ensures i <= r.2 && (i <= n ==> r.2 <= n && (r.1.Ok? <==> r.2 == n))
    decreases n - i
  {
    if i >= n then (s, Ok, i)
    else
      var offset := Times(i, Size(target));
      var (s1, r) := MapPage(m, s, root, VpnOf(m, va + offset), (pa + offset) / 4096, target, flags);
      if r.Err? then (s1, r, i) else MapPages(m, s1, root, va, pa, i + 1, n, target, flags)
  }

  /** Some tree makes this the outcome of mapping a range. */
  ghost predicate RangeMapped(m: Mode, s: St, t: Tree, s': St, r: MapResult, first: nat, n: nat, k: nat, target: nat,
      ppn: nat, flags: Flags) {
    exists t' :: RangeEffect(m, s, t, s', t', r, first, n, k, target, ppn, flags)
  }

  /** One turn of the loop. */
  lemma {:induction false} MapPagesTurn(m: Mode, s: St, root: nat, va: nat, pa: nat, i: nat, n: nat, target: nat,
      flags: Flags, v: Vpn, p: nat, s1: St, r: MapResult)
    requires StOk(m, s) && root < m.PpnLimit() && target < |v| == m.Levels() && i < n
    requires v == VpnOf(m, va + Times(i, Size(target))) && p == (pa + Times(i, Size(target))) / 4096
    requires (s1, r) == MapPage(m, s, root, v, p, target, flags)
    ensures StOk(m, s1) && MapPages(m, s, root, va, pa, i, n, target, flags)
         == if r.Err? then (s1, r, i) else MapPages(m, s1, root, va, pa, i + 1, n, target, flags)
  {
  }

  /** Its effect, when `i` pages have been mapped since state `s` with tree `t`. */
  lemma {:induction false} MapNth(m: Mode, s: St, t: Tree, s1: St, t1: Tree, va: nat, pa: nat, i: nat, n: nat,
      target: nat, flags: Flags) returns (s2: St, r: MapResult, k: nat)
    requires target < m.Levels() && RangeOk(m, va, pa, n, target) && Maps(flags) && i < n
    requires RangeEffect(m, s, t, s1, t1, Ok, Page(m, va, target), i, i, target, pa / 4096, flags)
    requires RangeClear(m, s.mem, t[[]], Page(m, va, target), n, target)
    ensures k == (if r.Ok? then i + 1 else i)
    ensures RangeMapped(m, s, t, s2, r, Page(m, va, target), i + 1, k, target, pa / 4096, flags)
    ensures StOk(m, s2) && MapPages(m, s1, t[[]], va, pa, i, n, target, flags)
         == if r.Err? then (s2, r, i) else MapPages(m, s2, t[[]], va, pa, i + 1, n, target, flags)
  {
    var v, p := VpnOf(m, va + Times(i, Size(target))), (pa + Times(i, Size(target))) / 4096;
    NthPage(m, va, pa, i, n, target);
    StillClear(m, s.mem, s1.mem, t[[]], Page(m, va, target), n, i, target, pa / 4096, flags, v);
    var t2;
    s2, r, t2 := MapRefines(m, s1, t1, v, p, target, flags);
    MapPagesTurn(m, s1, t1[[]], va, pa, i, n, target, flags, v, p, s2, r);
    var d := if r.Ok? then 1 else 0;
    k := i + d;
    RangeStep(m, s, t, s1, t1, s2, t2, r, Page(m, va, target), pa / 4096, i, d, k, target, flags, v, p);
  }

  lemma {:induction false} RangeStopped(m: Mode, s: St, t: Tree, s': St, t': Tree, e: MapError, first: nat, i: nat,
      n: nat, target: nat, ppn: nat, flags: Flags)
    requires RangeEffect(m, s, t, s', t', Err(e), first, i + 1, i, target, ppn, flags) && i < n
    ensures RangeMapped(m, s, t, s', Err(e), first, n, i, target, ppn, flags)
  {
    assert RangeEffect(m, s, t, s', t', Err(e), first, n, i, target, ppn, flags);
  }

  /** The whole loop, from where `i` pages have been mapped. */
  lemma {:induction false} MapPagesFrom(m: Mode, s: St, t: Tree, s1: St, t1: Tree, va: nat, pa: nat, i: nat, n: nat,
      target: nat, flags: Flags) returns (s': St, r: MapResult, k: nat)
    requires target < m.Levels() && RangeOk(m, va, pa, n, target) && Maps(flags) && i <= n
    requires RangeEffect(m, s, t, s1, t1, Ok, Page(m, va, target), i, i, target, pa / 4096, flags)
    requires RangeClear(m, s.mem, t[[]], Page(m, va, target), n, target)
    ensures (s', r, k) == MapPages(m, s1, t[[]], va, pa, i, n, target, flags)
    ensures RangeMapped(m, s, t, s', r, Page(m, va, target), n, k, target, pa / 4096, flags)
    decreases n - i
  {
    if i == n {
      return s1, Ok, i;
    }
    s', r, k := MapNth(m, s, t, s1, t1, va, pa, i, n, target, flags);
    var t2 :| RangeEffect(m, s, t, s', t2, r, Page(m, va, target), i + 1, k, target, pa / 4096, flags);
    if r.Err? {
      RangeStopped(m, s, t, s', t2, r.error, Page(m, va, target), i, n, target, pa / 4096, flags);
      return s', r, i;
    }
    s', r, k := MapPagesFrom(m, s, t, s', t2, va, pa, i + 1, n, target, flags);
  }

  /** `map_range` on a well-formed tree with no larger leaf above its pages. */
  lemma {:induction false} MapPagesRefines(m: Mode, s: St, t: Tree, va: nat, pa: nat, n: nat, target: nat,
      flags: Flags) returns (s': St, r: MapResult, k: nat)
    requires Space(m, s, t) && target < m.Levels() && RangeOk(m, va, pa, n, target) && Maps(flags)
    requires RangeClear(m, s.mem, t[[]], Page(m, va, target), n, target)
    ensures (s', r, k) == MapPages(m, s, t[[]], va, pa, 0, n, target, flags)
    ensures RangeMapped(m, s, t, s', r, Page(m, va, target), n, k, target, pa / 4096, flags)
  {
    RangeNone(m, s, t, Page(m, va, target), target, pa / 4096, flags);
    s', r, k := MapPagesFrom(m, s, t, s, t, va, pa, 0, n, target, flags);
  }

  lemma {:induction false} RedirectNothing(m: Mode, mem: Frames, mem1: Frames, mem2: Frames, root: nat, first: nat,
      n: nat, target: nat, ppn: nat, flags: Flags, first': nat, ppn': nat)
    requires Ram(m, mem) && Ram(m, mem1) && Ram(m, mem2) && root < m.PpnLimit() && target < m.Levels()
    requires RangeRedirected(m, mem, mem1, root, first, n, target, ppn, flags)
    requires RangeRedirected(m, mem1, mem2, root, first', 0, target, ppn', flags)
    ensures RangeRedirected(m, mem, mem2, root, first, n, target, ppn, flags)
  {
    forall w: Vpn {:trigger WalkRoot(m, mem2, root, w)} | |w| == m.Levels()
      ensures Redirect(m, mem, mem2, root, w, first, n, target, ppn, flags)
    {
      assert Redirect(m, mem, mem1, root, w, first, n, target, ppn, flags);
      assert Redirect(m, mem1, mem2, root, w, first', 0, target, ppn', flags);
    }
  }

  /** A range with no entry taken can only fail for want of a frame. */
  lemma {:induction false} FailsForFrames(m: Mode, s: St, t: Tree, s': St, t': Tree, e: MapError, first: nat, n: nat,
      k: nat, target: nat, ppn: nat, flags: Flags)
    requires RangeEffect(m, s, t, s', t', Err(e), first, n, k, target, ppn, flags)
    requires RangeFree(m, s.mem, t, first, n, target, flags)
    ensures e == AllocationFailed && Exhausted(s'.gfa, 1)
  {
  }

  /** At level 0 only a leaf can take an entry. */
  lemma {:induction false} FreeWhenUnmapped(m: Mode, mem: Frames, t: Tree, first: nat, n: nat, flags: Flags)
    requires Wf(m, mem, t)
    requires forall w: Vpn {:trigger WalkRoot(m, mem, t[[]], w)} ::
               |w| == m.Levels() && first <= PageNo(w, 0) < first + n ==> WalkRoot(m, mem, t[[]], w).Miss?
    ensures RangeFree(m, mem, t, first, n, 0, flags)
  {
    forall w: Vpn {:trigger Blocked(m, mem, t, w, 0, flags)} | |w| == m.Levels() && first <= PageNo(w, 0) < first + n
      ensures !Blocked(m, mem, t, w, 0, flags)
    {
      assert WalkRoot(m, mem, t[[]], w).Miss? && |w[0..]| == m.Levels();
    }
  }

  // ---------- what a redirected range means to virt_to_phys ----------

  lemma {:induction false} FrameAligned(ppn: nat, d: nat, l: nat)
    requires ppn % Span(l) == 0
    ensures (ppn + Times(d, Span(l))) % Span(l) == 0
    ensures (ppn + Times(d, Span(l))) * 4096 == ppn * 4096 + Times(d, Size(l))
  {
    TimesIs(d, Span(l));
    TimesIs(d, Size(l));
    Multiples(ppn, d, d + 1, Span(l));
  }

  /** A leaf with an aligned frame number translates an address to the frame plus the offset in the page. */
  lemma {:induction false} LeafTranslates(m: Mode, mem: Frames, root: nat, x: nat, l: nat, e: Entry)
    requires Ram(m, mem) && root < m.PpnLimit() && l < m.Levels() && e.ppn % Span(l) == 0
    requires Finds(WalkRoot(m, mem, root, VpnOf(m, x)), l, e)
    ensures VirtToPhys(m, mem, root, x) == Some(e.ppn * 4096 + x % Size(l))
  {
    OrLowAdds(m, x, e.ppn, l);
  }

  lemma {:induction false} SameTranslates(m: Mode, mem: Frames, mem': Frames, root: nat, x: nat)
    requires Ram(m, mem) && Ram(m, mem') && root < m.PpnLimit()
    requires WalkRoot(m, mem', root, VpnOf(m, x)) == WalkRoot(m, mem, root, VpnOf(m, x))
    ensures VirtToPhys(m, mem', root, x) == VirtToPhys(m, mem, root, x)
  {
  }

  /** After the range is mapped, an address in it translates to the frame of its page plus its offset
      in the page, and every other address translates as before. */
  lemma {:induction false} RangeTranslates(m: Mode, mem: Frames, mem': Frames, root: nat, va: nat, pa: nat, n: nat,
      target: nat, flags: Flags, x: nat)
    requires Ram(m, mem) && Ram(m, mem') && root < m.PpnLimit() && target < m.Levels() && pa % Size(target) == 0
    requires RangeRedirected(m, mem, mem', root, Page(m, va, target), n, target, pa / 4096, flags)
    ensures var d := Page(m, x, target) - Page(m, va, target);
            VirtToPhys(m, mem', root, x)
            == if 0 <= d < n then Some(pa + Times(d, Size(target)) + x % Size(target)) else VirtToPhys(m, mem, root, x)
  {
    var w, d := VpnOf(m, x), Page(m, x, target) - Page(m, va, target);
    PageNoOf(m, x, target);
    assert Redirect(m, mem, mem', root, w, Page(m, va, target), n, target, pa / 4096, flags);
    if 0 <= d < n {
      AlignedFrame(pa, target);
      FrameAligned(pa / 4096, d, target);
      LeafTranslates(m, mem', root, x, target, Entry(pa / 4096 + Times(d, Span(target)), flags + {VALID}));
    } else {
      SameTranslates(m, mem, mem', root, x);
    }
  }

  /** What one successful `map` does to `virt_to_phys`: every address of the page, of whatever size, leads
      to the same offset from `pa`, and every other address leads where it led before. */
  lemma {:induction false} MapTranslates(m: Mode, s: St, t: Tree, s': St, t': Tree, va: nat, pa: nat, target: nat,
      flags: Flags, x: nat)
    requires target < m.Levels() && pa % Size(target) == 0 && pa / 4096 < m.PpnLimit()
    requires MapEffect(m, s, t, s', t', Ok, VpnOf(m, va), pa / 4096, target, flags)
    ensures VirtToPhys(m, s'.mem, t[[]], x)
         == if Page(m, x, target) == Page(m, va, target) then Some(pa + x % Size(target))
           else VirtToPhys(m, s.mem, t[[]], x)
  {
    MapOne(m, s, t, s', t', Ok, VpnOf(m, va), pa / 4096, 1, target, flags);
    PageNoOf(m, va, target);
    RangeTranslates(m, s.mem, s'.mem, t[[]], va, pa, 1, target, flags, x);
  }

  lemma {:induction false} SpanFits(m: Mode, l: nat) returns (q: nat)
    requires l < m.Levels()
    ensures q >= 1 && Span(l) * q == m.PpnLimit()
  {
    Sizes();
    q := if m.Sv39? then (if l == 0 then 0x400_0000 else if l == 1 then 0x2_0000 else 0x100)
    else (if l == 0 then 0x1000_0000_0000 else if l == 1 then 0x8_0000_0000 else if l == 2 then 0x400_0000
      else 0x2_0000);
  }

  lemma {:induction false} MaskAligned(m: Mode, ppn: nat, l: nat)
    requires l < m.Levels() && ppn % Span(l) == 0
    ensures MaskPpn(m, ppn) % Span(l) == 0
  {
    var q := SpanFits(m, l);
    var c := ModMultiple(ppn, Span(l), q);
    TimesIs(c, Span(l));
    DivModUnique(c * Span(l), Span(l), c, 0);
  }

  /** An entry holds only so many bits of a frame number: a mapped page leads to `pa` if and only if they
      are enough for it. */
  lemma {:induction false} MapsWhereAsked(m: Mode, s: St, t: Tree, s': St, t': Tree, va: nat, pa: nat, target: nat,
      flags: Flags)
    requires target < m.Levels() && pa % Size(target) == 0
    requires MapEffect(m, s, t, s', t', Ok, VpnOf(m, va), pa / 4096, target, flags)
    ensures VirtToPhys(m, s'.mem, t[[]], va) == Some(pa + va % Size(target)) <==> pa / 4096 < m.PpnLimit()
  {
    var ppn := pa / 4096;
    AlignedFrame(pa, target);
    MaskAligned(m, ppn, target);
    LeafTranslates(m, s'.mem, t[[]], va, target, Entry(MaskPpn(m, ppn), flags + {VALID}));
  }

  /** Mapping a 1 GiB page to an address of 39 bits reports Ok, and the page does not lead there. */
  lemma {:induction false} FrameCut(va: nat, pa: nat, l: nat) returns (s: St, t: Tree)
    requires va == 0x4000_0000 && pa == 0x40_0000_0000 && l == 2
    ensures Space(Sv39, s, t) && pa % Size(l) == 0
    ensures var (s', r) := MapPage(Sv39, s, t[[]], VpnOf(Sv39, va), pa / 4096, l, {READ});
            r.Ok? && VirtToPhys(Sv39, s'.mem, t[[]], va) != Some(pa)
  {
    var mem := map f: nat | f < 0x400_0000 :: OneLeafFrame(f);
    OneLeafSpace(mem);
    s, t := St(mem, Gfa(0, 0)), map[[] := 1];
    var v := VpnOf(Sv39, va);
    Sizes();
    assert v[2] == 1 && mem[1] == OneLeafFrame(1) && s.mem[1][v[2]] == EMPTY;
    assert WalkRoot(Sv39, s.mem, t[[]], v).Miss?;
    var s', r, t' := MapRefines(Sv39, s, t, v, pa / 4096, l, {READ});
    assert Descend(Sv39, s, 1, l, l, v) == (s, Some(1));
    MapsWhereAsked(Sv39, s, t, s', t', va, pa, l, {READ});
  }

  /** A failed `map` moves no address, even when it added tables. */
  lemma {:induction false} FailedMapTranslates(m: Mode, s: St, t: Tree, s': St, t': Tree, va: nat, pa: nat, target: nat,
      flags: Flags, e: MapError, x: nat)
    requires target < m.Levels() && MapEffect(m, s, t, s', t', Err(e), VpnOf(m, va), pa / 4096, target, flags)
    ensures VirtToPhys(m, s'.mem, t[[]], x) == VirtToPhys(m, s.mem, t[[]], x)
  {
    var w := VpnOf(m, x);
    assert WalkRoot(m, s'.mem, t[[]], w) == WalkRoot(m, s.mem, t[[]], w);
  }

  /** A mapped range is linear: offset `o` from `va` leads to offset `o` from `pa`. */
  lemma {:induction false} RangeLinear(m: Mode, mem: Frames, mem': Frames, root: nat, va: nat, pa: nat, n: nat,
      target: nat, flags: Flags, o: nat)
    requires Ram(m, mem) && Ram(m, mem') && root < m.PpnLimit() && target < m.Levels() && RangeOk(m, va, pa, n, target)
    requires RangeRedirected(m, mem, mem', root, Page(m, va, target), n, target, pa / 4096, flags)
    requires va % Size(target) == 0 && o < Times(n, Size(target))
    ensures VirtToPhys(m, mem', root, va + o) == Some(pa + o)
  {
    var d, z := Split(o, n, Size(target));
    ModAdd(va, d, z, Size(target));
    OffsetPage(m, va, d, z, target);
    RangeTranslatesAt(m, mem, mem', root, va, pa, n, target, flags, va + o, d, z);
  }

  lemma {:induction false} RangeTranslatesAt(m: Mode, mem: Frames, mem': Frames, root: nat, va: nat, pa: nat, n: nat,
      target: nat, flags: Flags, x: nat, d: nat, z: nat)
    requires Ram(m, mem) && Ram(m, mem') && root < m.PpnLimit() && target < m.Levels() && pa % Size(target) == 0
    requires RangeRedirected(m, mem, mem', root, Page(m, va, target), n, target, pa / 4096, flags)
    requires Page(m, x, target) == Page(m, va, target) + d && d < n && x % Size(target) == z
    ensures VirtToPhys(m, mem', root, x) == Some(pa + Times(d, Size(target)) + z)
  {
    RangeTranslates(m, mem, mem', root, va, pa, n, target, flags, x);
  }

  lemma {:induction false} ModShift(a: nat, t: nat, n: nat)
    requires n > 0 && a % n + t < n
    ensures (a + t) % n == a % n + t
  {
    DivModUnique(a + t, n, a / n, a % n + t);
  }

  lemma {:induction false} OffsetPage(m: Mode, va: nat, d: nat, z: nat, k: nat)
    requires k < m.Levels() && va % Size(k) == 0 && z < Size(k) && Page(m, va, k) + d < Span(m.Levels() - k)
    ensures Page(m, va + Times(d, Size(k)) + z, k) == Page(m, va, k) + d
  {
    var c := AlignedMod(m, va, k);
    PageExact(m, va, c, 0, k);
    TimesSum(c, d, Size(k));
    TimesSum(c + d, 1, Size(k));
    PagesFill(m, c + d + 1, k);
    ModShift(va, Times(d, Size(k)) + z, VaLimit(m));
    PageExact(m, va + Times(d, Size(k)) + z, c + d, z, k);
  }

  /** The `n` bytes from `va` on lead to the bytes from `pa` on. */
  ghost predicate Linear(m: Mode, mem: Frames, root: nat, va: nat, pa: nat, n: nat)
    requires Ram(m, mem) && root < m.PpnLimit()
  {
    forall x: nat {:trigger VirtToPhys(m, mem, root, x)} :: va <= x < va + n ==>
      VirtToPhys(m, mem, root, x) == Some(pa + (x - va))
  }

  lemma {:induction false} MapsLinear(m: Mode, mem: Frames, mem': Frames, root: nat, va: nat, pa: nat, n: nat,
      flags: Flags)
    requires Ram(m, mem) && Ram(m, mem') && root < m.PpnLimit() && va % 4096 == 0 && RangeOk(m, va, pa, n, 0)
    requires RangeRedirected(m, mem, mem', root, Page(m, va, 0), n, 0, pa / 4096, flags)
    ensures Linear(m, mem', root, va, pa, 4096 * n)
  {
    Sizes();
    TimesIs(n, Size(0));
    forall x: nat {:trigger VirtToPhys(m, mem', root, x)} | va <= x < va + 4096 * n
      ensures VirtToPhys(m, mem', root, x) == Some(pa + (x - va))
    {
      RangeLinear(m, mem, mem', root, va, pa, n, 0, flags, x - va);
    }
  }
}
