/** `BitmapAllocator`: page descriptors at the start of the managed memory mark blocks without storing
    their sizes. */
module Bitmap {
  import opened Arith
  import opened Wrappers

  /** The flags of one page descriptor. */
  datatype Page = Page(taken: bool, last: bool)

  const FREE := Page(false, false)
  const TAKEN := Page(true, false)
  const LAST := Page(false, true)

  /** Start page and page count of every block handed out and not yet released. */
  type Blocks = map<nat, nat>

  /** What a block of `c` pages from `s` on writes into the descriptor of page `p`. */
  function Mark(s: nat, c: nat, p: nat): Page {
    if p + 1 == s + c then LAST else TAKEN
  }

  ghost predicate Marked(pages: seq<Page>, s: nat, c: nat) {
    1 <= c && s + c <= |pages| && forall p {:trigger pages[p]} :: s <= p < s + c ==> pages[p] == Mark(s, c, p)
  }

  predicate Inside(live: Blocks, s: nat, p: nat) {
    s in live && s <= p < s + live[s]
  }

  /** The marks stand for exactly the blocks of `live`, which are disjoint. */
  ghost predicate Encodes(pages: seq<Page>, live: Blocks) {
    && (forall s: nat {:trigger s in live} :: s in live ==> Marked(pages, s, live[s]))
    && (forall s: nat, t: nat {:trigger s in live, t in live} :: s in live && t in live && s < t ==> s + live[s] <= t)
    && (forall p {:trigger pages[p]} :: 0 <= p < |pages| && pages[p] != FREE ==> exists s: nat :: Inside(live, s, p))
  }

  /** Page `i` is free, and so are the `count` pages from it on. */
  ghost predicate Fits(pages: seq<Page>, i: nat, count: nat) {
    && i < |pages| && i + count <= |pages| && pages[i] == FREE
    && forall j {:trigger pages[j]} :: i <= j < i + count ==> pages[j] == FREE
  }

  /** A page before the start of a block, and outside all blocks or the last of one, is not TAKEN. */
  lemma {:induction false} BeforeBlock(pages: seq<Page>, live: Blocks, s: nat)
    requires Encodes(pages, live) && s in live && s > 0
    ensures pages[s - 1] != TAKEN
  {
    assert Marked(pages, s, live[s]);
    if pages[s - 1] != FREE {
      var u: nat :| Inside(live, u, s - 1);
      assert Marked(pages, u, live[u]) && u + live[u] <= s;
    }
  }

  lemma {:induction false} BlockIn(pages: seq<Page>, a: Blocks, b: Blocks, s: nat)
    requires Encodes(pages, a) && Encodes(pages, b) && s in a
    ensures s in b && b[s] == a[s]
  {
    assert Marked(pages, s, a[s]) && pages[s] != FREE;
    var t: nat :| Inside(b, t, s);
    assert Marked(pages, t, b[t]);
    if t < s {
      BeforeBlock(pages, a, s);
    }
    assert t == s;
    var ea, eb := s + a[s] - 1, s + b[s] - 1;
    assert pages[ea] == Mark(s, a[s], ea) && pages[eb] == Mark(s, b[s], eb);
  }

  /** No information is lost by not storing sizes: the marks determine the set of live blocks. */
  lemma {:induction false} MarksDetermineBlocks(pages: seq<Page>, a: Blocks, b: Blocks)
    requires Encodes(pages, a) && Encodes(pages, b)
    ensures a == b
  {
    forall s: nat
      ensures s in a <==> s in b
      ensures s in a ==> a[s] == b[s]
    {
      if s in a {
        BlockIn(pages, a, b, s);
      }
      if s in b {
        BlockIn(pages, b, a, s);
      }
    }
  }

  /** And the blocks determine the marks, so releasing what was just handed out restores every mark. */
  lemma {:induction false} BlocksDetermineMarks(a: seq<Page>, b: seq<Page>, live: Blocks)
    requires Encodes(a, live) && Encodes(b, live) && |a| == |b|
    ensures a == b
  {
    forall p | 0 <= p < |a|
      ensures a[p] == b[p]
    {
      if s: nat :| Inside(live, s, p) {
        assert Marked(a, s, live[s]) && Marked(b, s, live[s]);
      } else {
        assert a[p] == FREE && b[p] == FREE;
      }
    }
  }

  /** Marking a fitting run adds one block. */
  lemma {:induction false} AddBlock(pages: seq<Page>, live: Blocks, i: nat, count: nat, after: seq<Page>)
    requires Encodes(pages, live) && Fits(pages, i, count) && 1 <= count && |after| == |pages|
    requires forall p {:trigger after[p]} :: 0 <= p < |pages| ==>
        after[p] == if i <= p < i + count then Mark(i, count, p) else pages[p]
    ensures i !in live && Encodes(after, live[i := count])
  {
    var more := live[i := count];
    forall s: nat {:trigger s in live} | s in live
      ensures s + live[s] <= i || i + count <= s
    {
      assert Marked(pages, s, live[s]);
      var q := if s <= i then i else s;
      assert q < s + live[s] && q < i + count ==> pages[q] == Mark(s, live[s], q);
    }
    forall s: nat {:trigger s in more} | s in more
      ensures Marked(after, s, more[s])
    {
      assert s != i ==> Marked(pages, s, live[s]);
    }
    forall p {:trigger after[p]} | 0 <= p < |after| && after[p] != FREE
      ensures exists s: nat :: Inside(more, s, p)
    {
      if i <= p < i + count {
        assert Inside(more, i, p);
      } else {
        var s: nat :| Inside(live, s, p);
        assert Inside(more, s, p);
      }
    }
  }

  /** Clearing the pages of one block removes exactly that block. */
  lemma {:induction false} RemoveBlock(pages: seq<Page>, live: Blocks, s: nat, after: seq<Page>)
    requires Encodes(pages, live) && s in live && |after| == |pages|
    requires forall p {:trigger after[p]} :: 0 <= p < |pages| ==>
        after[p] == if s <= p < s + live[s] then FREE else pages[p]
    ensures Encodes(after, live - {s})
  {
    var less := live - {s};
    assert Marked(pages, s, live[s]);
    forall t: nat {:trigger t in less} | t in less
      ensures Marked(after, t, less[t])
    {
      assert t in live && Marked(pages, t, live[t]);
    }
    forall p {:trigger after[p]} | 0 <= p < |after| && after[p] != FREE
      ensures exists t: nat :: Inside(less, t, p)
    {
      var t: nat :| Inside(live, t, p);
      assert Inside(less, t, p);
    }
  }

  datatype AllocatorError = UnalignedAddress | InvalidPageSize

  datatype InitResult = Ok(base: nat, pages: nat) | Err(error: AllocatorError)

  /** The whole pages of `[start, end)`, a byte each, are the size of the descriptor table. */
  function TableSize(start: nat, end: nat, n: nat): nat
    requires start <= end && n >= 1
  {
    (end - start) / n
  }

  /** The first address after the table, rounded up to a multiple of the power of two `n`. */
  function AfterTable(start: nat, end: nat, n: nat): nat
    requires start <= end && n >= 1
  {
    var top := start + TableSize(start, end, n) + n - 1;
    top - top % n
  }

  /** Splits `[start, end)` into the descriptor table and the pages managed. */
  function InitLayout(start: nat, end: nat, n: nat): (r: InitResult)
    requires start <= end
  {
    if n == 0 || !PowerOfTwo(n) then Err(InvalidPageSize)
    else if start % n != 0 || end % n != 0 then Err(UnalignedAddress)
    else
      var base := AfterTable(start, end, n);
      InitPlacesTable(start, end, n);
      Ok(base, (end - base) / n)
  }

  /** On aligned areas the subtraction behind the page count never underflows, the table covers a
      descriptor per managed page and ends before the first of them, and the pages fill the area up to
      its end. */
  lemma {:induction false} InitPlacesTable(start: nat, end: nat, n: nat)
    requires start <= end && n >= 1 && start % n == 0 && end % n == 0
    ensures var base := AfterTable(start, end, n);
      && base <= end && (end - base) % n == 0 && base % n == 0
      && start + (end - base) / n <= base < start + TableSize(start, end, n) + n
  {
    var a, b := start / n, end / n;
    assert start == a * n && end == b * n;
    if b < a {
      MulLe(b + 1, a, n);
    }
    var t: nat := b - a;
    var d := TableIs(start, end, n, a, t);
    PagesLeft(end, n, a + d, t - d);
  }

  lemma {:induction false} TableIs(start: nat, end: nat, n: nat, a: nat, t: nat) returns (d: nat)
    requires start <= end && n >= 1 && start == a * n && end == (a + t) * n
    ensures TableSize(start, end, n) == t && AfterTable(start, end, n) == (a + d) * n
    ensures d <= t && start + t <= (a + d) * n < start + t + n
  {
    assert end - start == t * n;
    DivModUnique(end - start, n, t, 0);
    var z;
    d, z := TableRoom(t, n);
    RoundedUp(a, d, z, n, start + t + n - 1);
  }

  lemma {:induction false} PagesLeft(end: nat, n: nat, c: nat, k: nat)
    requires n >= 1 && end == (c + k) * n
    ensures c * n <= end && (end - c * n) % n == 0 && (end - c * n) / n == k && c * n % n == 0
  {
    assert end == c * n + k * n;
    DivModUnique(k * n, n, k, 0);
    DivModUnique(c * n, n, c, 0);
  }

  lemma {:induction false} RoundedUp(a: nat, d: nat, z: nat, n: nat, top: nat)
    requires z < n && top == a * n + d * n + z
    ensures top % n == z && top - z == (a + d) * n && (a + d) * n % n == 0
  {
    assert (a + d) * n == a * n + d * n;
    DivModUnique(top, n, a + d, z);
    DivModUnique((a + d) * n, n, a + d, 0);
  }

  /** `t` table bytes need `d` pages, which leave room for at most `t - d` others. */
  lemma {:induction false} TableRoom(t: nat, n: nat) returns (d: nat, z: nat)
    requires n >= 1
    ensures t + n - 1 == d * n + z && z < n
    ensures d <= t <= d * n
  {
    d, z := (t + n - 1) / n, (t + n - 1) % n;
    if d > t {
      MulLe(t + 1, d, n);
      assert (t + 1) * n == t * n + n;
      MulLe(1, n, t);
    }
  }

  /** The pages managed are whole, end where the area ends and start at the first multiple of the page size
      after a descriptor byte for every page of the area. */
  ghost predicate Placed(start: nat, end: nat, n: nat, base: nat, pages: nat)
    requires start <= end && n >= 1
  {
    && base % n == 0 && base + pages * n == end
    && start + (end - start) / n <= base < start + (end - start) / n + n && start + pages <= base
  }

  /** Setting up fails exactly for a page size that is no power of two and for an end that is no multiple of it. */
  lemma {:induction false} InitIff(start: nat, end: nat, n: nat)
    requires start <= end
    ensures InitLayout(start, end, n) == Err(InvalidPageSize) <==> forall k: nat :: n != Shl(1, k)
    ensures InitLayout(start, end, n) == Err(UnalignedAddress) <==>
      (exists k: nat :: n == Shl(1, k)) && n >= 1 && (start % n != 0 || end % n != 0)
    ensures var r := InitLayout(start, end, n); r.Ok? ==> n >= 1 && Placed(start, end, n, r.base, r.pages)
  {
    PowerOfTwoIs(n);
    var r := InitLayout(start, end, n);
    if r.Ok? {
      InitPlacesTable(start, end, n);
      DivModUnique(end - r.base, n, (end - r.base) / n, 0);
    }
  }

  class BitmapAllocator {
    const pageSize: nat
    const base: nat
    const numPages: nat
    const pages: array<Page>
    ghost var live: Blocks

    ghost predicate Valid()
      reads this, pages
    {
      1 <= pageSize && pages.Length == numPages && Encodes(pages[..], live)
    }

    /** Manages the pages that `InitLayout` leaves after the descriptor table. */
    constructor (start: nat, end: nat, n: nat)
      requires start <= end && InitLayout(start, end, n).Ok?
      ensures Valid() && fresh(pages) && live == map[]
      ensures pageSize == n && base == InitLayout(start, end, n).base && numPages == InitLayout(start, end, n).pages
      ensures Placed(start, end, n, base, numPages)
    {
      InitIff(start, end, n);
      pageSize, base, numPages := n, InitLayout(start, end, n).base, InitLayout(start, end, n).pages;
      pages := new Page[InitLayout(start, end, n).pages](_ => TAKEN);
      live := map[];
      new;
      for i := 0 to numPages
        modifies pages
        invariant forall p {:trigger pages[p]} :: 0 <= p < i ==> pages[p] == FREE
      {
        pages[i] := FREE;
      }
    }

    /** The first page from `x` on that is not free, if it lies within `count` pages. */
    method Blocking(x: nat, count: nat) returns (j: nat)
      requires x + count <= pages.Length
      ensures x <= j <= x + count
      ensures forall k {:trigger pages[k]} :: x <= k < j ==> pages[k] == FREE
      ensures j < x + count ==> pages[j] != FREE
    {
      j := x;
      while j < x + count && !(pages[j].taken || pages[j].last)
        invariant x <= j <= x + count
        invariant forall k {:trigger pages[k]} :: x <= k < j ==> pages[k] == FREE
      {
        j := j + 1;
      }
    }

    /** Skips ahead from page `i` until a run fits; no run that fits is skipped. */
    method FirstFit(count: nat) returns (r: Option<nat>)
      requires Valid()
      ensures r.None? ==> forall k {:trigger Fits(pages[..], k, count)} :: 0 <= k ==> !Fits(pages[..], k, count)
      ensures r.Some? ==> Fits(pages[..], r.value, count)
      ensures r.Some? ==> forall k {:trigger Fits(pages[..], k, count)} :: 0 <= k < r.value ==>
          !Fits(pages[..], k, count)
    {
      var i := 0;
      while i < numPages
        invariant i <= numPages
        invariant forall k {:trigger Fits(pages[..], k, count)} :: 0 <= k < i ==> !Fits(pages[..], k, count)
      {
        if pages[i].taken || pages[i].last {
          assert pages[..][i] != FREE;
          i := i + 1;
        } else if numPages - i < count {
          return None;
        } else {
          var j := Blocking(i, count);
          if j == i + count {
            return Some(i);
          }
          assert pages[..][j] != FREE;
          i := j;
        }
      }
      return None;
    }

    method MarkBlock(i: nat, count: nat)
      requires i + count <= pages.Length && forall k {:trigger pages[k]} :: i <= k < i + count ==> pages[k] == FREE
      modifies pages
      ensures forall p {:trigger pages[p]} :: 0 <= p < pages.Length ==>
          pages[p] == if i <= p < i + count then Mark(i, count, p) else old(pages[p])
    {
      for j := i to i + count
        invariant forall p {:trigger pages[p]} :: 0 <= p < pages.Length ==>
            pages[p] == if i <= p < j then Mark(i, count, p) else old(pages[p])
      {
        pages[j] := if j == i + count - 1 then pages[j].(last := true) else pages[j].(taken := true);
      }
    }

    /** Hands out the lowest run of `count` free pages as a new block; None exactly when there is none.
        A request for no pages marks nothing. */
    method Alloc(count: nat) returns (frame: Option<nat>)
      requires Valid()
      modifies this, pages
      ensures Valid()
      ensures frame.None? <==> forall k {:trigger Fits(old(pages[..]), k, count)} :: 0 <= k ==>
          !Fits(old(pages[..]), k, count)
      ensures frame.None? ==> live == old(live)
      ensures frame.Some? ==> exists i: nat {:trigger Fits(old(pages[..]), i, count)} ::
        && Fits(old(pages[..]), i, count) && frame.value == base + i * pageSize
        && (forall k {:trigger Fits(old(pages[..]), k, count)} :: 0 <= k < i ==> !Fits(old(pages[..]), k, count))
        && i !in old(live)
        && live == (if count == 0 then old(live) else old(live)[i := count])
    {
      var r := FirstFit(count);
      if r.None? {
        return None;
      }
      ghost var before := pages[..];
      var i: nat := r.value;
      MarkBlock(i, count);
      if count > 0 {
        AddBlock(before, live, i, count, pages[..]);
        live := live[i := count];
      } else {
        assert pages[..] == before;
        assert i in live ==> Marked(before, i, live[i]);
      }
      return Some(base + i * pageSize);
    }

    /** Clears pages from `offset` on up to the first LAST mark. */
    method Clear(offset: nat, ghost c: nat)
      requires pages.Length == numPages && Marked(pages[..], offset, c)
      modifies pages
      ensures forall p {:trigger pages[p]} :: 0 <= p < numPages ==>
        pages[p] == if offset <= p < offset + c then FREE else old(pages[p])
    {
      ghost var before := pages[..];
      var i := offset;
      while i < numPages
        invariant offset <= i < offset + c
        invariant forall p {:trigger pages[p]} :: 0 <= p < numPages ==>
            pages[p] == if offset <= p < i then FREE else before[p]
      {
        assert before[i] == Mark(offset, c, i);
        var last := pages[i].last;
        assert pages[i] != FREE;
        pages[i] := FREE;
        if last {
          break;
        }
        i := i + 1;
      }
    }

    method Offset(frame: nat, ghost s: nat) returns (offset: nat)
      requires 1 <= pageSize && frame == base + s * pageSize
      ensures offset == s
    {
      DivModUnique(frame - base, pageSize, s, 0);
      offset := (frame - base) / pageSize;
    }

    /** Releases the live block `s` given only its address: all its pages, and no other page, become
        free, and the sanity check never fires. */
    method Free(frame: nat, ghost s: nat)
      requires Valid() && s in live && frame == base + s * pageSize
      modifies this, pages
      ensures Valid() && live == old(live) - {s}
      ensures forall p {:trigger pages[p]} :: 0 <= p < numPages ==>
        pages[p] == if s <= p < s + old(live)[s] then FREE else old(pages[p])
    {
      var offset := Offset(frame, s);
      ghost var before := pages[..];
      assert Marked(before, s, live[s]);
      Clear(offset, live[s]);
      RemoveBlock(before, live, s, pages[..]);
      live := live - {s};
    }
  }
}
