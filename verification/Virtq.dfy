/** The split virtqueue of the VirtIO driver: descriptor chains and the available ring. */
module Virtq {
  import opened Arith

  datatype Descriptor = Descriptor(addr: nat, len: nat, more: bool, write: bool, next: nat)

  datatype Buffer = Buffer(addr: nat, len: nat, write: bool)

  type Chain = seq<Buffer>

  /** The descriptor as the device sees it. */
  function Seen(d: Descriptor): Buffer { Buffer(d.addr, d.len, d.write) }

  /** The buffer after the length is stored in 32 bits. */
  function Stored(b: Buffer): Buffer { b.(len := b.len % 0x1_0000_0000) }

  /** How the device reads a chain: from `head`, following `next` while the NEXT flag is set, over at
      most `fuel` descriptors. */
  function ReadChain(descr: seq<Descriptor>, head: nat, fuel: nat): seq<Buffer>
    requires forall i :: 0 <= i < |descr| ==> descr[i].next < |descr|
    decreases fuel
  {
    if fuel == 0 || head >= |descr| then []
    else [Seen(descr[head])] + if descr[head].more then ReadChain(descr, descr[head].next, fuel - 1) else []
  }

  /** First descriptor of chain `j`: chains lie one after the other. */
  function Start(chains: seq<Chain>, j: nat): nat
    requires j <= |chains|
  {
    if j == 0 then 0 else Start(chains, j - 1) + |chains[j - 1]|
  }

  function Used(chains: seq<Chain>): nat { Start(chains, |chains|) }

  /** The length of the first chain, after which the leftover link sits. */
  function FirstLen(chains: seq<Chain>): nat { if chains == [] then 0 else |chains[0]| }

  /** Descriptor number `o` of chain `bufs`, laid out from descriptor `s` on. */
  predicate SlotOk(descr: seq<Descriptor>, s: nat, bufs: Chain, o: nat)
    requires o < |bufs| && s + |bufs| <= |descr|
  {
    && Seen(descr[s + o]) == Stored(bufs[o])
    && descr[s + o].more == (o < |bufs| - 1)
    && (o < |bufs| - 1 ==> descr[s + o].next == s + o + 1)
  }

  ghost predicate Laid(descr: seq<Descriptor>, s: nat, bufs: Chain) {
    s + |bufs| <= |descr| && forall o {:trigger SlotOk(descr, s, bufs, o)} :: 0 <= o < |bufs| ==>
      SlotOk(descr, s, bufs, o)
  }

  function StoredAll(bufs: Chain): Chain {
    if bufs == [] then [] else [Stored(bufs[0])] + StoredAll(bufs[1..])
  }

  /** The links of the free block, and the two links left over from the ring it once was. */
  ghost predicate Links(descr: seq<Descriptor>, used: nat, k: nat, firstFree: nat) {
    var n := |descr|;
    && 0 < n && used <= n && (used == 0 <==> k == 0) && k <= used
    && (forall i {:trigger descr[i]} :: 0 <= i < n ==> descr[i].next < n)
    && (forall i {:trigger descr[i]} :: used <= i < n - 1 ==> descr[i].next == i + 1)
    && (used == 0 ==> firstFree == 0 && descr[n - 1].next == 0)
    && (0 < used < n ==> firstFree == used && descr[n - 1].next == k)
    && (0 < used ==> descr[k - 1].next == firstFree)
    && (forall i {:trigger descr[i]} :: 0 <= i < k - 1 ==> descr[i].next == i + 1)
  }

  ghost predicate ChainOk(descr: seq<Descriptor>, chains: seq<Chain>, j: nat)
    requires j < |chains|
  {
    && 1 <= |chains[j]| && Start(chains, j) + |chains[j]| <= Used(chains)
    && Laid(descr, Start(chains, j), chains[j])
  }

  ghost predicate Inv(descr: seq<Descriptor>, firstFree: nat, chains: seq<Chain>) {
    && 0 < |descr|
    && Used(chains) <= |descr|
    && Links(descr, Used(chains), FirstLen(chains), firstFree)
    && (forall j {:trigger ChainOk(descr, chains, j)} :: 0 <= j < |chains| ==> ChainOk(descr, chains, j))
  }

  lemma {:induction false} StartMonotone(chains: seq<Chain>, i: nat, j: nat)
    requires i <= j <= |chains|
    ensures Start(chains, i) <= Start(chains, j)
    decreases j
  {
    if i < j {
      StartMonotone(chains, i, j - 1);
    }
  }

  lemma {:induction false} StartPrefix(chains: seq<Chain>, more: seq<Chain>, j: nat)
    requires j <= |chains|
    ensures Start(chains + more, j) == Start(chains, j)
  {
    if j > 0 {
      StartPrefix(chains, more, j - 1);
      assert (chains + more)[j - 1] == chains[j - 1];
    }
  }

  lemma {:induction false} StartPrefixes(chains: seq<Chain>, more: seq<Chain>)
    ensures forall j {:trigger Start(chains + more, j)} :: 0 <= j <= |chains| ==>
        Start(chains + more, j) == Start(chains, j)
  {
    forall j {:trigger Start(chains + more, j)} | 0 <= j <= |chains|
      ensures Start(chains + more, j) == Start(chains, j)
    {
      StartPrefix(chains, more, j);
    }
  }

  /** The device reads exactly the buffers of a laid-out chain. */
  lemma {:induction false} ReadLaid(descr: seq<Descriptor>, s: nat, bufs: Chain, fuel: nat)
    requires Laid(descr, s, bufs) && |bufs| <= fuel && bufs != []
    requires forall i {:trigger descr[i]} :: 0 <= i < |descr| ==> descr[i].next < |descr|
    ensures ReadChain(descr, s, fuel) == StoredAll(bufs)
    decreases |bufs|
  {
    assert SlotOk(descr, s, bufs, 0);
    if |bufs| > 1 {
      LaidTail(descr, s, bufs, bufs[1..]);
      ReadLaid(descr, s + 1, bufs[1..], fuel - 1);
    } else {
      assert bufs[1..] == [];
    }
  }

  lemma {:induction false} LaidTail(descr: seq<Descriptor>, s: nat, bufs: Chain, rest: Chain)
    requires Laid(descr, s, bufs) && bufs != [] && rest == bufs[1..]
    ensures Laid(descr, s + 1, rest)
  {
    forall o {:trigger SlotOk(descr, s + 1, rest, o)} | 0 <= o < |rest|
      ensures SlotOk(descr, s + 1, rest, o)
    {
      assert SlotOk(descr, s, bufs, o + 1);
    }
  }

  /** Where the descent over `k` free descriptors ends. */
  function LinkAfter(descr: seq<Descriptor>, used: nat, k: nat): nat
    requires 0 < |descr|
  {
    if used + k < |descr| then used + k else descr[|descr| - 1].next
  }

  /** The descriptor whose link the parent search rewrites. */
  function Parent(n: nat, chains: seq<Chain>): int { if chains == [] then n - 1 else |chains[0]| - 1 }

  lemma {:induction false} FirstWithin(descr: seq<Descriptor>, firstFree: nat, chains: seq<Chain>)
    requires Inv(descr, firstFree, chains)
    ensures chains == [] <==> Used(chains) == 0
    ensures FirstLen(chains) <= Used(chains)
  {
    if chains != [] {
      assert ChainOk(descr, chains, 0);
      StartMonotone(chains, 1, |chains|);
      assert Start(chains, 1) == Start(chains, 0) + |chains[0]|;
    }
  }

  /** The first descriptor that links to the first free one is the last of the very first chain, or the
      last descriptor while nothing was submitted. */
  lemma {:induction false} ParentIs(descr: seq<Descriptor>, firstFree: nat, chains: seq<Chain>)
    requires Inv(descr, firstFree, chains) && Used(chains) < |descr|
    ensures firstFree == Used(chains) && (chains == [] <==> Used(chains) == 0)
    ensures var p := Parent(|descr|, chains);
            && 0 <= p < |descr| && descr[p].next == firstFree
            && forall i :: 0 <= i < p ==> descr[i].next != firstFree
  {
    FirstWithin(descr, firstFree, chains);
  }

  /** After the relinking, the `k` descriptors from the first free one on form a chain that ends at the
      new first free one. */
  lemma {:induction false} Relinked(descr: seq<Descriptor>, firstFree: nat, chains: seq<Chain>, k: nat,
      descr1: seq<Descriptor>)
    requires Inv(descr, firstFree, chains) && 1 <= k <= |descr| - Used(chains)
    requires var p := Parent(|descr|, chains);
             0 <= p < |descr| && descr1 == descr[p := descr[p].(next := LinkAfter(descr, firstFree, k))]
    ensures forall o {:trigger descr1[firstFree + o]} :: 0 <= o < k - 1 ==>
        descr1[firstFree + o].next == firstFree + o + 1
    ensures descr1[firstFree + k - 1].next == LinkAfter(descr, firstFree, k)
  {
    FirstWithin(descr, firstFree, chains);
    ParentIs(descr, firstFree, chains);
  }

  /** What `submit` leaves of the descriptor table: the relinked parent and the filled-in chain. */
  ghost predicate Filled(descr1: seq<Descriptor>, descr2: seq<Descriptor>, head: nat, bufs: Chain, done: nat) {
    && |descr2| == |descr1| && head + |bufs| <= |descr1| && done <= |bufs|
    && (forall i {:trigger descr2[i]} :: 0 <= i < |descr1| ==> descr2[i].next == descr1[i].next)
    && (forall i {:trigger descr2[i]} :: 0 <= i < |descr1| && !(head <= i < head + done) ==> descr2[i] == descr1[i])
    && (forall o {:trigger bufs[o]} :: 0 <= o < done ==>
          Seen(descr2[head + o]) == Stored(bufs[o]) && descr2[head + o].more == (o < |bufs| - 1))
  }

  lemma {:induction false} FilledStep(descr1: seq<Descriptor>, descr2: seq<Descriptor>, head: nat, bufs: Chain, i: nat,
      d: Descriptor)
    requires Filled(descr1, descr2, head, bufs, i) && i < |bufs|
    requires d.next == descr2[head + i].next && Seen(d) == Stored(bufs[i]) && d.more == (i < |bufs| - 1)
    ensures Filled(descr1, descr2[head + i := d], head, bufs, i + 1)
  {
  }

  /** `descr1` is `descr` with the parent relinked, `descr2` is `descr1` with the chain filled in. */
  ghost predicate Submitted(descr: seq<Descriptor>, firstFree: nat, chains: seq<Chain>, bufs: Chain,
      descr1: seq<Descriptor>, descr2: seq<Descriptor>) {
    && Inv(descr, firstFree, chains) && 1 <= |bufs| <= |descr| - Used(chains)
    && Filled(descr1, descr2, firstFree, bufs, |bufs|)
    && var p := Parent(|descr|, chains);
       0 <= p < |descr| && descr1 == descr[p := descr[p].(next := LinkAfter(descr, firstFree, |bufs|))]
  }

  /** The descriptors in use keep what the device sees, and all but the parent keep their link. */
  lemma {:induction false} InUseKept(descr: seq<Descriptor>, firstFree: nat, chains: seq<Chain>, bufs: Chain,
      descr1: seq<Descriptor>, descr2: seq<Descriptor>, i: nat)
    requires Submitted(descr, firstFree, chains, bufs, descr1, descr2) && i < Used(chains)
    ensures Seen(descr2[i]) == Seen(descr[i]) && descr2[i].more == descr[i].more
    ensures descr2[i].next == if i == Parent(|descr|, chains) then LinkAfter(descr, firstFree, |bufs|)
        else descr[i].next
  {
    ParentIs(descr, firstFree, chains);
  }

  lemma {:induction false} LinksStep(descr: seq<Descriptor>, firstFree: nat, chains: seq<Chain>, bufs: Chain,
      descr1: seq<Descriptor>, descr2: seq<Descriptor>)
    requires Submitted(descr, firstFree, chains, bufs, descr1, descr2)
    ensures Links(descr2, Used(chains) + |bufs|, FirstLen(chains + [bufs]), LinkAfter(descr, firstFree, |bufs|))
  {
    ParentIs(descr, firstFree, chains);
    assert FirstLen(chains + [bufs]) == if chains == [] then |bufs| else FirstLen(chains);
    RelinkedLinks(descr, Used(chains), FirstLen(chains), |bufs|, descr1);
    SameLinks(descr1, descr2, Used(chains) + |bufs|, FirstLen(chains + [bufs]), LinkAfter(descr, firstFree, |bufs|));
  }

  lemma {:induction false} RelinkedLinks(descr: seq<Descriptor>, used: nat, first: nat, k: nat, descr1: seq<Descriptor>)
    requires Links(descr, used, first, used) && 1 <= k <= |descr| - used
    requires var p := if used == 0 then |descr| - 1
        else first - 1; descr1 == descr[p := descr[p].(next := LinkAfter(descr, used, k))]
    ensures Links(descr1, used + k, if used == 0 then k else first, LinkAfter(descr, used, k))
  {
    if used == 0 {
      FirstLinks(descr, k, descr1);
    } else {
      LaterLinks(descr, used, first, k, descr1);
    }
  }

  lemma {:induction false} FirstLinks(descr: seq<Descriptor>, k: nat, descr1: seq<Descriptor>)
    requires 0 < |descr| && Links(descr, 0, 0, 0) && 1 <= k <= |descr|
    requires descr1 == descr[|descr| - 1 := descr[|descr| - 1].(next := LinkAfter(descr, 0, k))]
    ensures Links(descr1, k, k, LinkAfter(descr, 0, k))
  {
  }

  lemma {:induction false} LaterLinks(descr: seq<Descriptor>, used: nat, first: nat, k: nat, descr1: seq<Descriptor>)
    requires 0 < first <= used < |descr| && Links(descr, used, first, used) && 1 <= k <= |descr| - used
    requires descr1 == descr[first - 1 := descr[first - 1].(next := LinkAfter(descr, used, k))]
    ensures Links(descr1, used + k, first, LinkAfter(descr, used, k))
  {
  }

  lemma {:induction false} SameLinks(descr1: seq<Descriptor>, descr2: seq<Descriptor>, used: nat, k: nat,
      firstFree: nat)
    requires Links(descr1, used, k, firstFree) && |descr2| == |descr1|
    requires forall i {:trigger descr2[i]} :: 0 <= i < |descr1| ==> descr2[i].next == descr1[i].next
    ensures Links(descr2, used, k, firstFree)
  {
  }

  lemma {:induction false} LaidStep(descr: seq<Descriptor>, firstFree: nat, chains: seq<Chain>, bufs: Chain,
      descr1: seq<Descriptor>, descr2: seq<Descriptor>, j: nat)
    requires Submitted(descr, firstFree, chains, bufs, descr1, descr2) && j < |chains|
    ensures Laid(descr2, Start(chains, j), chains[j])
  {
    var s, c := Start(chains, j), chains[j];
    assert ChainOk(descr, chains, j);
    if j > 0 {
      StartMonotone(chains, 1, j);
      assert Start(chains, 1) == Start(chains, 0) + |chains[0]|;
    }
    forall o {:trigger SlotOk(descr2, s, c, o)} | 0 <= o < |c|
      ensures SlotOk(descr2, s, c, o)
    {
      assert SlotOk(descr, s, c, o);
      InUseKept(descr, firstFree, chains, bufs, descr1, descr2, s + o);
    }
  }

  lemma {:induction false} NewLaid(descr: seq<Descriptor>, firstFree: nat, chains: seq<Chain>, bufs: Chain,
      descr1: seq<Descriptor>, descr2: seq<Descriptor>)
    requires Submitted(descr, firstFree, chains, bufs, descr1, descr2)
    ensures Laid(descr2, firstFree, bufs)
  {
    Relinked(descr, firstFree, chains, |bufs|, descr1);
    forall o {:trigger SlotOk(descr2, firstFree, bufs, o)} | 0 <= o < |bufs|
      ensures SlotOk(descr2, firstFree, bufs, o)
    {
      assert o < |bufs| - 1 ==> descr1[firstFree + o].next == firstFree + o + 1;
      assert bufs[o] == bufs[o];
    }
  }

  /** One `submit` keeps the invariant, and with it every chain submitted before. */
  lemma {:induction false} SubmitKeeps(descr: seq<Descriptor>, firstFree: nat, chains: seq<Chain>, bufs: Chain,
      descr1: seq<Descriptor>, descr2: seq<Descriptor>)
    requires Submitted(descr, firstFree, chains, bufs, descr1, descr2)
    ensures Inv(descr2, LinkAfter(descr, firstFree, |bufs|), chains + [bufs])
    ensures Used(chains + [bufs]) == Used(chains) + |bufs| && Start(chains + [bufs], |chains|) == firstFree
  {
    var cs := chains + [bufs];
    StartPrefix(chains, [bufs], |chains|);
    ParentIs(descr, firstFree, chains);
    LinksStep(descr, firstFree, chains, bufs, descr1, descr2);
    forall j {:trigger ChainOk(descr2, cs, j)} | 0 <= j < |cs|
      ensures ChainOk(descr2, cs, j)
    {
      StartPrefix(chains, [bufs], j);
      if j < |chains| {
        assert ChainOk(descr, chains, j);
        LaidStep(descr, firstFree, chains, bufs, descr1, descr2, j);
      } else {
        NewLaid(descr, firstFree, chains, bufs, descr1, descr2);
      }
    }
  }

  lemma {:induction false} StartAtLeast(descr: seq<Descriptor>, chains: seq<Chain>, j: nat)
    requires (forall i {:trigger ChainOk(descr, chains, i)} :: 0 <= i < |chains| ==> ChainOk(descr, chains, i))
    requires j <= |chains|
    ensures j <= Start(chains, j)
    decreases j
  {
    if j > 0 {
      StartAtLeast(descr, chains, j - 1);
      assert ChainOk(descr, chains, j - 1);
    }
  }

  lemma Advance(i: nat, size: nat)
    requires i < size
    ensures (i + 1) % size == if i + 1 == size then 0 else i + 1
  {
    if i + 1 < size {
      SmallMod(i + 1, size);
    }
  }

  class Virtqueue {
    const size: nat
    const descr: array<Descriptor>
    const availRing: array<nat>
    var availIdx: nat
    var firstFree: nat
    var freeCount: nat
    ghost var chains: seq<Chain>

    /** `chains` are the chains submitted so far, oldest first. */
    ghost predicate Valid()
      reads this, descr, availRing
    {
      && 0 < size && descr.Length == size && availRing.Length == size
      && Inv(descr[..], firstFree, chains)
      && freeCount == size - Used(chains)
      && |chains| <= size && availIdx == (if |chains| == size then 0 else |chains|)
      && forall j {:trigger availRing[j]} :: 0 <= j < |chains| ==> availRing[j] == Start(chains, j)
    }

    constructor (size: nat)
      requires 0 < size
      ensures Valid() && fresh(descr) && fresh(availRing)
      ensures this.size == size && freeCount == size && chains == []
    {
      this.size, availIdx, firstFree, freeCount, chains := size, 0, 0, size, [];
      descr := new Descriptor[size](_ => Descriptor(0, 0, false, false, 0));
      availRing := new nat[size](_ => 0);
      new;
      for i := 1 to size
        modifies descr
        invariant forall j {:trigger descr[j]} :: 0 <= j < size ==> descr[j].next == if j < i - 1 then j + 1 else 0
      {
        descr[i - 1] := descr[i - 1].(next := i);
      }
      descr[size - 1] := descr[size - 1].(next := 0);
      assert Links(descr[..], 0, 0, 0);
    }

    /** The descriptor `k` links behind the first free one. */
    method NextLink(k: nat) returns (idx: nat)
      requires Valid() && 1 <= k <= freeCount
      ensures idx == LinkAfter(descr[..], firstFree, k)
    {
      ParentIs(descr[..], firstFree, chains);
      idx := firstFree;
      for i := 0 to k
        invariant idx == LinkAfter(descr[..], firstFree, i)
      {
        assert idx == firstFree + i && descr[idx] == descr[..][idx];
        idx := descr[idx].next;
      }
    }

    /** The first descriptor that links to the first free one; there always is one. */
    method FindParent() returns (p: nat)
      requires Valid() && 1 <= freeCount
      ensures p == Parent(size, chains)
    {
      ParentIs(descr[..], firstFree, chains);
      ghost var parent := Parent(size, chains);
      assert descr[..][parent] == descr[parent];
      p := 0;
      while descr[p].next != firstFree
        invariant 0 <= p <= parent
        decreases parent - p
      {
        p := p + 1;
      }
      assert descr[..][p] == descr[p];
    }

    /** Fills in the descriptors from `head` on; on return the two closing asserts of `submit` hold. */
    method Prepare(head: nat, bufs: seq<Buffer>, ghost link: nat) returns (idx: nat, rem: nat)
      requires 1 <= |bufs| && head + |bufs| <= descr.Length
      requires forall o {:trigger descr[head + o]} :: 0 <= o < |bufs| - 1 ==> descr[head + o].next == head + o + 1
      requires descr[head + |bufs| - 1].next == link
      modifies descr
      ensures Filled(old(descr[..]), descr[..], head, bufs, |bufs|)
      ensures rem == 0 && idx == link
    {
      ghost var before := descr[..];
      idx, rem := head, |bufs|;
      for i := 0 to |bufs|
        invariant rem == |bufs| - i && idx == if i < |bufs| then head + i else link
        invariant Filled(before, descr[..], head, bufs, i)
      {
        ghost var mid := descr[..];
        assert before[idx] == old(descr[head + i]) && mid[idx] == descr[idx];
        var b := bufs[i];
        descr[idx] := Descriptor(b.addr, b.len % 0x1_0000_0000, rem != 1, b.write, descr[idx].next);
        assert descr[..] == mid[idx := descr[idx]];
        FilledStep(before, mid, head, bufs, i, descr[idx]);
        idx := descr[idx].next;
        rem := rem - 1;
      }
    }

    /** Takes the descriptors for `bufs` off the free block and fills them in. */
    method Chained(bufs: seq<Buffer>) returns (head: nat)
      requires Valid() && 1 <= |bufs| <= freeCount
      modifies `firstFree, `freeCount, descr
      ensures head == old(firstFree) == Start(chains + [bufs], |chains|)
      ensures Inv(descr[..], firstFree, chains + [bufs])
      ensures freeCount == old(freeCount) - |bufs| && Used(chains + [bufs]) == Used(chains) + |bufs|
    {
      ghost var before := descr[..];
      head := firstFree;
      var link := NextLink(|bufs|);
      var parent := FindParent();
      descr[parent] := descr[parent].(next := link);
      ghost var relinked := descr[..];
      assert relinked == before[parent := before[parent].(next := link)];
      Relinked(before, head, chains, |bufs|, relinked);
      firstFree := link;
      freeCount := freeCount - |bufs|;
      assert forall o {:trigger descr[head + o]} :: 0 <= o < |bufs| ==> descr[head + o] == relinked[head + o];
      var idx, rem := Prepare(head, bufs, link);
      assert rem == 0;
      assert idx == firstFree;
      SubmitKeeps(before, head, chains, bufs, relinked, descr[..]);
    }

    /** Appends `bufs` to the chains the device sees; no earlier chain is touched. */
    method Submit(bufs: seq<Buffer>)
      requires Valid() && 1 <= |bufs| <= freeCount
      modifies this, descr, availRing
      ensures Valid() && chains == old(chains) + [bufs]
      ensures freeCount == old(freeCount) - |bufs|
    {
      StartAtLeast(descr[..], chains, |chains|);
      StartPrefixes(chains, [bufs]);
      var head := Chained(bufs);
      availRing[availIdx] := head;
      StartAtLeast(descr[..], chains + [bufs], |chains| + 1);
      Advance(availIdx, size);
      availIdx := (availIdx + 1) % size;
      chains := chains + [bufs];
    }
  }

  /** The device was given the buffers, with lengths of 32 bits. */
  predicate Delivered(read: seq<Buffer>, bufs: Chain) {
    |read| == |bufs| && forall o {:trigger bufs[o]} :: 0 <= o < |bufs| ==>
      read[o] == Buffer(bufs[o].addr, bufs[o].len % 0x1_0000_0000, bufs[o].write)
  }

  lemma {:induction false} StoredDelivers(bufs: Chain)
    ensures Delivered(StoredAll(bufs), bufs)
  {
    if bufs != [] {
      StoredDelivers(bufs[1..]);
      forall o {:trigger bufs[o]} | 0 <= o < |bufs|
        ensures StoredAll(bufs)[o] == Buffer(bufs[o].addr, bufs[o].len % 0x1_0000_0000, bufs[o].write)
      {
        assert o > 0 ==> bufs[o] == bufs[1..][o - 1];
      }
    }
  }

  /** Following the ring, the device reads every chain ever submitted, whole and in order. */
  lemma {:induction false} DeviceReads(q: Virtqueue, j: nat)
    requires q.Valid() && j < |q.chains|
    ensures ReadChain(q.descr[..], q.availRing[j], q.size) == StoredAll(q.chains[j])
    ensures Delivered(ReadChain(q.descr[..], q.availRing[j], q.size), q.chains[j])
  {
    assert ChainOk(q.descr[..], q.chains, j);
    ReadLaid(q.descr[..], Start(q.chains, j), q.chains[j], q.size);
    StoredDelivers(q.chains[j]);
  }

  lemma {:induction false} ReadsAll(q: Virtqueue)
    requires q.Valid()
    ensures forall j {:trigger q.availRing[j]} :: 0 <= j < |q.chains| ==>
              ReadChain(q.descr[..], q.availRing[j], q.size) == StoredAll(q.chains[j])
  {
    forall j {:trigger q.availRing[j]} | 0 <= j < |q.chains|
      ensures ReadChain(q.descr[..], q.availRing[j], q.size) == StoredAll(q.chains[j])
    {
      DeviceReads(q, j);
    }
  }

  /** Two submitted chains share no descriptor. */
  lemma {:induction false} ChainsApart(q: Virtqueue, i: nat, j: nat)
    requires q.Valid() && i < j < |q.chains|
    ensures q.availRing[i] + |q.chains[i]| <= q.availRing[j] && q.availRing[j] + |q.chains[j]| <= q.size - q.freeCount
  {
    StartMonotone(q.chains, i + 1, j);
    assert Start(q.chains, i + 1) == Start(q.chains, i) + |q.chains[i]|;
    assert ChainOk(q.descr[..], q.chains, j);
  }

  lemma {:induction false} StartTwice(chains: seq<Chain>, j: nat)
    requires (forall i {:trigger chains[i]} :: 0 <= i < |chains| ==> 2 <= |chains[i]|) && j <= |chains|
    ensures 2 * j <= Start(chains, j)
    decreases j
  {
    if j > 0 {
      StartTwice(chains, j - 1);
    }
  }

  /** The available index counts the submits exactly until one-descriptor chains fill the whole queue;
      with two descriptors per chain and more than one slot that never happens. */
  lemma {:induction false} IndexCounts(q: Virtqueue)
    requires q.Valid()
    ensures q.availIdx == |q.chains| <==> |q.chains| < q.size
    ensures (forall i {:trigger q.chains[i]} :: 0 <= i < |q.chains| ==> 2 <= |q.chains[i]|) ==> |q.chains| < q.size
  {
    if forall i {:trigger q.chains[i]} :: 0 <= i < |q.chains| ==> 2 <= |q.chains[i]| {
      StartTwice(q.chains, |q.chains|);
    }
  }

  /** On a queue of one slot a single submit leaves the index where it was. */
  method OneSlot(b: Buffer) returns (q: Virtqueue)
    ensures fresh(q) && q.Valid() && q.chains == [[b]] && q.availIdx == 0
  {
    q := new Virtqueue(1);
    q.Submit([b]);
  }

  datatype RequestType = In | Out | Flush | GetId | GetLifetime | Discard | WriteZeroes | SecureErase

  const HEADER_SIZE := 16
  const TRAILER_SIZE := 1

  /** The data buffer of a request: device-writable exactly for the two kinds that read from the device. */
  function DataBuffer(kind: RequestType, data: nat, len: nat): seq<Buffer> {
    match kind
    case In | GetId => [Buffer(data, len, true)]
    case Flush => []
    case _ => [Buffer(data, len, false)]
  }

  function Request(kind: RequestType, req: nat, data: nat, len: nat): seq<Buffer> {
    [Buffer(req, HEADER_SIZE, false)] + DataBuffer(kind, data, len) + [Buffer(req + HEADER_SIZE, TRAILER_SIZE, true)]
  }

  /** What the device is to find: the 16 bytes of the request, the data if there are any, which it may write
      exactly to answer In and GetId, and the status byte behind the request, which it may write. */
  predicate Asks(read: seq<Buffer>, kind: RequestType, req: nat, data: nat, len: nat) {
    && |read| == (if kind == Flush then 2 else 3)
    && read[0] == Buffer(req, 16, false) && read[|read| - 1] == Buffer(req + 16, 1, true)
    && (kind != Flush ==> read[1] == Buffer(data, len % 0x1_0000_0000, kind == In || kind == GetId))
  }

  lemma {:induction false} RequestAsks(kind: RequestType, req: nat, data: nat, len: nat, read: seq<Buffer>)
    requires Delivered(read, Request(kind, req, data, len))
    ensures Asks(read, kind, req, data, len)
  {
    var bufs := Request(kind, req, data, len);
    assert read[0] == Buffer(bufs[0].addr, bufs[0].len % 0x1_0000_0000, bufs[0].write);
    assert read[1] == Buffer(bufs[1].addr, bufs[1].len % 0x1_0000_0000, bufs[1].write);
    if |bufs| == 3 {
      assert read[2] == Buffer(bufs[2].addr, bufs[2].len % 0x1_0000_0000, bufs[2].write);
    }
  }

  class BlkDev {
    const virtq: Virtqueue

    ghost predicate Valid()
      reads this, virtq, virtq.descr, virtq.availRing
    {
      && virtq.Valid()
      && forall i {:trigger virtq.chains[i]} :: 0 <= i < |virtq.chains| ==> 2 <= |virtq.chains[i]|
    }

    constructor (size: nat)
      requires 0 < size
      ensures Valid() && fresh(virtq) && fresh(virtq.descr) && fresh(virtq.availRing)
      ensures virtq.chains == [] && virtq.freeCount == size
    {
      virtq := new Virtqueue(size);
    }

    /** Queues the buffers of one request. */
    method Enqueue(bufs: seq<Buffer>)
      requires Valid() && 2 <= |bufs| <= virtq.freeCount
      modifies virtq, virtq.descr, virtq.availRing
      ensures Valid() && virtq.chains == old(virtq.chains) + [bufs]
      ensures virtq.availIdx == |virtq.chains| == old(virtq.availIdx) + 1
      ensures Delivered(ReadChain(virtq.descr[..], virtq.availRing[old(virtq.availIdx)], virtq.size), bufs)
      ensures forall j {:trigger virtq.availRing[j]} :: 0 <= j < old(virtq.availIdx) ==>
        ReadChain(virtq.descr[..], virtq.availRing[j], virtq.size)
          == old(ReadChain(virtq.descr[..], virtq.availRing[j], virtq.size))
    {
      IndexCounts(virtq);
      ReadsAll(virtq);
      virtq.Submit(bufs);
      IndexCounts(virtq);
      ReadsAll(virtq);
      StoredDelivers(bufs);
    }

    /** Queues one request whose header and status byte live at `req`. The ring lists all requests in
        order, the device reads this one as it should, and reads every earlier one as before. */
    method Transfer(kind: RequestType, req: nat, data: nat, len: nat)
      requires Valid() && (if kind == Flush then 2 else 3) <= virtq.freeCount
      modifies virtq, virtq.descr, virtq.availRing
      ensures Valid() && virtq.chains == old(virtq.chains) + [Request(kind, req, data, len)]
      ensures virtq.availIdx == |virtq.chains| == old(virtq.availIdx) + 1
      ensures Asks(ReadChain(virtq.descr[..], virtq.availRing[old(virtq.availIdx)], virtq.size), kind, req, data, len)
      ensures forall j {:trigger virtq.availRing[j]} :: 0 <= j < old(virtq.availIdx) ==>
        ReadChain(virtq.descr[..], virtq.availRing[j], virtq.size)
          == old(ReadChain(virtq.descr[..], virtq.availRing[j], virtq.size))
    {
      var bufs := Request(kind, req, data, len);
      assert |bufs| == if kind == Flush then 2 else 3;
      Enqueue(bufs);
      RequestAsks(kind, req, data, len, ReadChain(virtq.descr[..], virtq.availRing[old(virtq.availIdx)], virtq.size));
    }
  }
}
