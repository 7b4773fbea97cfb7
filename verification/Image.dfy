/** What loading one segment means: pages redirected to fresh frames, then protected and filled. */
module Image {
  import opened Arith
  import opened Bytes
  import opened Paging
  import opened Addr
  import opened Mapping
  import opened Ranges
  import opened Update
  import opened Copy

  datatype SegmentFlag = R | W | X

  /** `from_segment_flags`, with USER and ACCESS added as every caller does. */
  function UserFlags(f: set<SegmentFlag>): Flags {
    (if R in f then {READ} else {}) + (if W in f then {WRITE} else {}) + (if X in f then {EXEC}
      else {}) + {USER, ACCESS}
  }

  lemma {:induction false} ProtectFlags(f: set<SegmentFlag>, g: set<SegmentFlag>)
    ensures UserFlags(f) + {VALID} - RWXUG + UserFlags(g) == UserFlags(g) + {VALID}
  {
  }

  /** The frame numbers of pages of level 0 follow each other. */
  lemma {:induction false} PageOf(m: Mode, j: nat)
    requires j < Span(m.Levels())
    ensures PageNo(VpnOf(m, 4096 * j), 0) == j
  {
    Sizes();
    PageNoOf(m, 4096 * j, 0);
    SmallMod(4096 * j, VaLimit(m));
  }

  /** Every page of the range is mapped by a leaf of its own. */
  ghost predicate OwnLeaves(m: Mode, mem: Frames, root: nat, first: nat, n: nat)
    requires Ram(m, mem) && root < m.PpnLimit()
  {
    forall v: Vpn {:trigger WalkRoot(m, mem, root, v)} :: |v| == m.Levels() && first <= PageNo(v, 0) < first + n ==>
      WalkRoot(m, mem, root, v).Hit? && WalkRoot(m, mem, root, v).level == 0
  }

  /** Then no other leaf holds a page of the range. */
  lemma {:induction false} NotTouched(m: Mode, mem: Frames, root: nat, first: nat, n: nat, w: Vpn, l: nat)
    requires Ram(m, mem) && root < m.PpnLimit() && |w| == m.Levels() && first + n <= Span(m.Levels())
    requires OwnLeaves(m, mem, root, first, n) && !(first <= PageNo(w, 0) < first + n)
    requires WalkRoot(m, mem, root, w).Hit? && WalkRoot(m, mem, root, w).level == l
    ensures !Touched(w, l, first, n)
  {
    TouchedIff(w, l, first, n);
    forall j | first <= j < first + n
      ensures !Within(j, l, PageNo(w, l))
    {
      var v := VpnOf(m, 4096 * j);
      PageOf(m, j);
      PageNoUp(v, l);
      assert WalkRoot(m, mem, root, v).level == 0;
      if Within(j, l, PageNo(w, l)) {
        PageNoSame(v, w, l);
        WalkShared(m, mem, root, |v| - 1, v, w);
      }
    }
  }

  /** Protecting a freshly mapped range leaves it mapped with exactly the new flags. */
  lemma {:induction false} ProtectRedirects(m: Mode, mem: Frames, mem1: Frames, mem2: Frames, root: nat, first: nat,
      n: nat, ppn: nat, lf: Flags, pf: Flags)
    requires Ram(m, mem) && Ram(m, mem1) && Ram(m, mem2) && root < m.PpnLimit() && first + n <= Span(m.Levels())
    requires RangeRedirected(m, mem, mem1, root, first, n, 0, ppn, lf)
    requires FlagsUpdated(m, mem1, mem2, root, first, n, pf)
    requires lf + {VALID} - RWXUG + pf == pf + {VALID}
    ensures RangeRedirected(m, mem, mem2, root, first, n, 0, ppn, pf)
  {
    RedirectedOwn(m, mem, mem1, root, first, n, ppn, lf);
    forall w: Vpn {:trigger Redirect(m, mem, mem2, root, w, first, n, 0, ppn, pf)} | |w| == m.Levels()
      ensures Redirect(m, mem, mem2, root, w, first, n, 0, ppn, pf)
    {
      assert Redirect(m, mem, mem1, root, w, first, n, 0, ppn, lf);
      assert UpdatedAt(m, mem1, mem2, root, w, first, n, pf);
      var h := WalkRoot(m, mem1, root, w);
      if first <= PageNo(w, 0) < first + n {
        TouchedIff(w, 0, first, n);
        assert Within(PageNo(w, 0), 0, PageNo(w, 0));
      } else if h.Hit? {
        NotTouched(m, mem1, root, first, n, w, h.level);
      }
    }
  }

  lemma {:induction false} RedirectedOwn(m: Mode, mem: Frames, mem1: Frames, root: nat, first: nat, n: nat, ppn: nat,
      lf: Flags)
    requires Ram(m, mem) && Ram(m, mem1) && root < m.PpnLimit()
    requires RangeRedirected(m, mem, mem1, root, first, n, 0, ppn, lf)
    ensures OwnLeaves(m, mem1, root, first, n)
  {
    forall v: Vpn {:trigger WalkRoot(m, mem1, root, v)} | |v| == m.Levels() && first <= PageNo(v, 0) < first + n
      ensures WalkRoot(m, mem1, root, v).Hit? && WalkRoot(m, mem1, root, v).level == 0
    {
      assert Redirect(m, mem, mem1, root, v, first, n, 0, ppn, lf);
    }
  }

  /** Handing out frames touches nothing. */
  lemma {:induction false} AllocKept(m: Mode, s: St, t: Tree, count: nat)
    requires Space(m, s, t) && AllocFrames(s.gfa, count).Some?
    ensures var s' := St(s.mem, AllocFrames(s.gfa, count).value.1); Kept(m, s, t, s', t)
  {
  }

  lemma {:induction false} UpdateKept(m: Mode, s: St, t: Tree, mem': Frames, first: nat, k: nat, flags: Flags)
    requires Space(m, s, t) && UpdateEffect(m, s.mem, mem', t, first, k, flags)
    ensures Kept(m, s, t, St(mem', s.gfa), t)
  {
  }

  /** The kernel tree `kt` is well formed and away from the user tree and the free frames. */
  ghost predicate KernelApart(m: Mode, s: St, t: Tree, kt: Tree) {
    Wf(m, s.mem, kt) && Fresh(s.gfa, kt) && Separate(kt, t)
  }

  /** Whatever keeps the user tree leaves the kernel tree and its translations alone. */
  lemma {:induction false} KernelUnmoved(m: Mode, s: St, t: Tree, s': St, t': Tree, kt: Tree)
    requires Kept(m, s, t, s', t') && KernelApart(m, s, t, kt)
    ensures KernelApart(m, s', t', kt) && SameWalks(m, s.mem, s'.mem, kt[[]])
  {
    forall p {:trigger kt[p]} | p in kt
      ensures s'.mem[kt[p]] == s.mem[kt[p]] && !Owned(t', kt[p])
    {
      assert !Owned(t, kt[p]) && !Free(s.gfa, kt[p]);
    }
    Untouched(m, s.mem, s'.mem, kt);
  }

  /** Frame `f` is neither free nor a page table. */
  ghost predicate DataFrame(g: Gfa, t: Tree, kt: Tree, f: nat) {
    !Free(g, f) && !Owned(t, f) && !Owned(kt, f)
  }

  /** Once a data frame, always a data frame. */
  lemma {:induction false} DataFrameStays(m: Mode, s: St, t: Tree, s': St, t': Tree, kt: Tree, f: nat)
    requires Kept(m, s, t, s', t') && DataFrame(s.gfa, t, kt, f)
    ensures DataFrame(s'.gfa, t', kt, f)
  {
  }

  type Memory = map<nat, Byte>

  /** `bytes'` is `bytes` with `w` stored from `pa` on. */
  ghost predicate Stored(bytes: Memory, bytes': Memory, pa: nat, w: seq<Byte>) {
    forall a: nat {:trigger a in bytes'} {:trigger a in bytes} ::
      && (a in bytes' <==> a in bytes)
      && (a in bytes' ==> bytes'[a] == if pa <= a < pa + |w| then w[a - pa] else bytes[a])
  }

  lemma {:induction false} StoredNext(bytes: Memory, bytes1: Memory, pa: nat, w: seq<Byte>, x: Byte)
    requires Stored(bytes, bytes1, pa, w) && pa + |w| in bytes
    ensures Stored(bytes, bytes1[pa + |w| := x], pa, w + [x])
  {
  }

  lemma {:induction false} StoredBoth(bytes: Memory, bytes1: Memory, bytes2: Memory, pa: nat, u: seq<Byte>,
      v: seq<Byte>)
    requires Stored(bytes, bytes1, pa, u) && Stored(bytes1, bytes2, pa + |u|, v)
    ensures Stored(bytes, bytes2, pa, u + v)
  {
    forall a: nat {:trigger a in bytes2} {:trigger a in bytes}
      ensures a in bytes2 <==> a in bytes
      ensures a in bytes2 ==> bytes2[a] == if pa <= a < pa + |u + v| then (u + v)[a - pa] else bytes[a]
    {
      assert a in bytes1 <==> a in bytes;
    }
  }
}
