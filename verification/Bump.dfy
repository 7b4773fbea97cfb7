/** `BumpAllocator`: a downward bump allocator that resets once everything is released. */
module Bump {
  import opened Arith
  import opened Wrappers

  datatype Block = Block(base: nat, size: nat)

  /** `a` lies wholly above `b`. */
  predicate Above(a: Block, b: Block) {
    b.base + b.size <= a.base
  }

  /** Live blocks, oldest first, lie one below the other in `[ptr, end)`. */
  ghost predicate Stacked(live: seq<Block>, ptr: nat, end: nat) {
    && (forall i :: 0 <= i < |live| ==> ptr <= live[i].base && live[i].base + live[i].size <= end)
    && (forall i, j :: 0 <= i < j < |live| ==> Above(live[i], live[j]))
  }

  class BumpAllocator {
    const start: nat
    const end: nat
    var ptr: nat
    var granted: nat
    /** The blocks handed out and not yet released, oldest first. */
    ghost var live: seq<Block>

    ghost predicate Valid()
      reads this
    {
      start <= ptr <= end && granted == |live| && Stacked(live, ptr, end)
    }

    constructor (start: nat, end: nat)
      requires start <= end
      ensures Valid() && this.start == start && this.end == end && ptr == end && live == []
    {
      this.start, this.end, ptr, granted, live := start, end, end, 0, [];
    }

    /** Reserves `size` bytes aligned to the power of two `align`, below everything handed out since
        the last reset; None stands for the null pointer. */
    method Alloc(size: nat, align: nat) returns (p: Option<nat>)
      requires Valid() && align >= 1
      modifies this
      ensures Valid()
      ensures p.None? ==> ptr == old(ptr) && live == old(live)
      ensures p.None? <==> !exists b: nat :: b % align == 0 && start <= b && b + size <= old(ptr)
      ensures p.Some? ==> p.value == ptr && ptr % align == 0 && start <= ptr && ptr + size <= old(ptr)
      ensures p.Some? ==> live == old(live) + [Block(ptr, size)]
      ensures p.Some? ==> forall b: nat :: b % align == 0 && b + size <= old(ptr) ==> b <= ptr
    {
      if ptr < size {
        return None;
      }
      var top: nat := ptr - size;
      var base := top - top % align;
      Highest(top, align);
      if base < start {
        return None;
      }
      granted := granted + 1;
      ptr := base;
      live := live + [Block(base, size)];
      return Some(base);
    }

    /** Releases the live block number `k`; the address space is reused only once none is live. */
    method Dealloc(ghost k: nat)
      requires Valid() && k < |live|
      modifies this
      ensures Valid()
      ensures live == old(live)[..k] + old(live)[k + 1..]
      ensures ptr == if live == [] then end else old(ptr)
    {
      granted := granted - 1;
      live := live[..k] + live[k + 1..];
      if granted == 0 {
        ptr := end;
      }
    }
  }

  /** Rounding down gives the highest multiple not above `top`. */
  lemma {:induction false} Highest(top: nat, align: nat)
    requires align >= 1
    ensures (top - top % align) % align == 0
    ensures forall b: nat :: b % align == 0 && b <= top ==> b <= top - top % align
  {
    var q := top / align;
    assert top - top % align == q * align;
    DivModUnique(q * align, align, q, 0);
    forall b: nat | b % align == 0 && b <= top
      ensures b <= top - top % align
    {
      NotAbove(b, top, align, b / align, q);
    }
  }

  lemma {:induction false} NotAbove(b: nat, top: nat, align: nat, c: nat, q: nat)
    requires b == c * align && q * align <= top < q * align + align && b <= top
    ensures b <= q * align
  {
    Distribute(q, 1, align);
    if c <= q {
      MulLe(c, q, align);
    } else {
      MulLe(q + 1, c, align);
    }
  }
}
