/** ELF64 images: the header, the program headers, and the load plan built from them. */
module Elf {
  import opened Arith
  import opened Bytes
  import opened Paging
  import opened Addr
  import opened Image
  import opened Loader
  import opened Wrappers

  datatype ElfError = TooSmall | BadMagic | NotElf64 | NotLittleEndian | BadHeaderSize | BadPhEntSize | OutOfBounds

  /** Panic stands for an offset sum past 64 bits, in a build with overflow checks. */
  datatype Result<T> = Ok(value: T) | Err(error: ElfError) | Panic

  /** The header fields that are used after parsing. */
  datatype Header = Header(entry: nat, phoff: nat, phentsize: nat, phnum: nat)

  datatype Phdr = Phdr(kind: nat, flags: nat, offset: nat, vaddr: nat, filesz: nat, memsz: nat, align: nat)

  const ELFMAG: seq<Byte> := [0x7f, 69, 76, 70]
  const PT_LOAD := 1

  /** Little-endian value. */
  function Le(w: seq<Byte>): nat {
    if w == [] then 0 else w[0] + 256 * Le(w[1..])
  }

  function GetRange(data: seq<Byte>, off: nat, len: nat): Result<seq<Byte>> {
    if off + len >= WORD then Panic
    else if off + len <= |data| then Ok(data[off..off + len])
    else Err(OutOfBounds)
  }

  function ParseHeader(data: seq<Byte>): Result<Header> {
    if |data| < 64 then Err(TooSmall)
    else if data[0..4] != ELFMAG then Err(BadMagic)
    else if data[4] != 2 then Err(NotElf64)
    else if data[5] != 1 then Err(NotLittleEndian)
    else
      var h := Header(Le(data[0x18..0x20]), Le(data[0x20..0x28]), Le(data[0x36..0x38]), Le(data[0x38..0x3a]));
      if Le(data[0x34..0x36]) != 64 then Err(BadHeaderSize)
      else if h.phnum != 0 && h.phentsize != 56 then Err(BadPhEntSize)
      else if h.phnum == 0 then Ok(h)
      else match GetRange(data, h.phoff, h.phentsize * h.phnum)
        case Ok(_) => Ok(h)
        case Err(e) => Err(e)
        case Panic => Panic
  }

  function ParsePhdr(w: seq<Byte>): Result<Phdr> {
    if |w| < 56 then Err(TooSmall)
    else Ok(Phdr(Le(w[0..4]), Le(w[4..8]), Le(w[8..16]), Le(w[16..24]), Le(w[32..40]), Le(w[40..48]), Le(w[48..56])))
  }

  /** Program header number `i`. */
  function PhdrAt(data: seq<Byte>, h: Header, i: nat): Result<Phdr> {
    match GetRange(data, h.phoff + i * h.phentsize, h.phentsize)
    case Ok(w) => ParsePhdr(w)
    case Err(e) => Err(e)
    case Panic => Panic
  }

  /** Once the header is accepted every program header can be read. */
  lemma {:induction false} HeadersReadable(data: seq<Byte>, i: nat)
    requires ParseHeader(data).Ok? && i < ParseHeader(data).value.phnum
    ensures PhdrAt(data, ParseHeader(data).value, i).Ok?
  {
    var h := ParseHeader(data).value;
    MulLe(i + 1, h.phnum, 56);
    assert (i + 1) * 56 == i * 56 + 56;
  }

  /** The iterator over the program headers. */
  class ProgramHeaderIter {
    const data: seq<Byte>
    const header: Header
    var idx: nat

    constructor (data: seq<Byte>, header: Header)
      ensures this.data == data && this.header == header && idx == 0
    {
      this.data, this.header, idx := data, header, 0;
    }

    method Next() returns (r: Option<Result<Phdr>>)
      modifies this
      ensures old(idx) >= header.phnum ==> r == None && idx == old(idx)
      ensures old(idx) < header.phnum ==> r == Some(PhdrAt(data, header, old(idx))) && idx == old(idx) + 1
    {
      if idx >= header.phnum {
        return None;
      }
      r := Some(PhdrAt(data, header, idx));
      idx := idx + 1;
    }
  }

  function SegmentFlags(p: Phdr): set<SegmentFlag> {
    (if p.flags / 4 % 2 == 1 then {R} else {}) + (if p.flags / 2 % 2 == 1 then {W} else {})
    + (if p.flags % 2 == 1 then {X} else {})
  }

  datatype PlanResult =
    | Plan(entry: nat, count: nat)
    | BadElf(error: ElfError)
    | TooManySegments
    | Misaligned
    | DataExceedsMemory
    | PlanPanic

  /** `VirtAddr::new` on a 64-bit field; None stands for its panic. */
  function NewAddr(m: Mode, a: nat): Option<nat> {
    if a < WORD then TryNew(m, a) else None
  }

  /** The slot that a loadable program header fills. */
  function SegmentOf(m: Mode, data: seq<Byte>, p: Phdr): LoadSegment
    requires p.offset + p.filesz <= |data| && NewAddr(m, p.vaddr).Some?
  {
    LoadSegment(NewAddr(m, p.vaddr).value, p.memsz, data[p.offset..p.offset + p.filesz], p.offset, SegmentFlags(p),
      p.align)
  }

  /** Why loadable header number `i` stops the plan, if it does. */
  function Refusal(m: Mode, data: seq<Byte>, p: Phdr, i: nat, slots: nat, maxSegments: nat): Option<PlanResult> {
    if i >= slots || i >= maxSegments then Some(TooManySegments)
    else if p.offset + p.filesz >= WORD then Some(PlanPanic)
    else if p.offset + p.filesz > |data| then Some(BadElf(OutOfBounds))
    else if NewAddr(m, p.vaddr).None? then Some(PlanPanic)
    else if p.align == 0 || !PowerOfTwo(p.align) || NewAddr(m, p.vaddr).value % p.align != 0 then Some(Misaligned)
    else if p.memsz < p.filesz then Some(DataExceedsMemory)
    else None
  }

  type Headers = seq<Result<Phdr>>

  function AllHeaders(data: seq<Byte>, h: Header): (hs: Headers)
    ensures |hs| == h.phnum
  {
    seq(h.phnum, i requires 0 <= i < h.phnum => PhdrAt(data, h, i))
  }

  /** The outcome of planning from header number `i` on. */
  function PlanFrom(m: Mode, data: seq<Byte>, hs: Headers, entry: nat, i: nat, slots: nat, maxSegments: nat): PlanResult
    decreases |hs| - i
  {
    if i >= |hs| then
      if NewAddr(m, entry).None? || |hs| > slots then PlanPanic else Plan(NewAddr(m, entry).value, |hs|)
    else match hs[i]
      case Err(e) => BadElf(e)
      case Panic => PlanPanic
      case Ok(p) =>
        if p.kind == PT_LOAD && Refusal(m, data, p, i, slots, maxSegments).Some? then
          Refusal(m, data, p, i, slots, maxSegments).value
        else PlanFrom(m, data, hs, entry, i + 1, slots, maxSegments)
  }

  /** The whole plan of an image. */
  function PlanOf(m: Mode, data: seq<Byte>, slots: nat, maxSegments: nat): PlanResult {
    match ParseHeader(data)
    case Err(e) => BadElf(e)
    case Panic => PlanPanic
    case Ok(h) => PlanFrom(m, data, AllHeaders(data, h), h.entry, 0, slots, maxSegments)
  }

  predicate Loadable(h: Result<Phdr>) { h.Ok? && h.value.kind == PT_LOAD }

  /** What the slot of a header holds after planning, if it held `was` before. */
  function Slot(m: Mode, data: seq<Byte>, h: Result<Phdr>, was: LoadSegment): LoadSegment {
    if Loadable(h) && h.value.offset + h.value.filesz <= |data| && NewAddr(m, h.value.vaddr).Some?
    then SegmentOf(m, data, h.value)
    else was
  }

  /** Fills the slots of the loadable headers; a refusal ends the loop. */
  method FillSlots(m: Mode, data: seq<Byte>, h: Header, maxSegments: nat, buf: array<LoadSegment>,
      ghost hs: Headers) returns (stop: Option<PlanResult>)
    requires hs == AllHeaders(data, h)
    modifies buf
    ensures PlanFrom(m, data, hs, h.entry, 0, buf.Length, maxSegments)
         == if stop.Some? then stop.value else PlanFrom(m, data, hs, h.entry, |hs|, buf.Length, maxSegments)
    ensures stop.Some? ==> !stop.value.Plan?
    ensures stop.None? ==> forall i {:trigger buf[i]} :: 0 <= i < buf.Length ==>
        buf[i] == if i < |hs| then Slot(m, data, hs[i], old(buf[i])) else old(buf[i])
  {
    var it := new ProgramHeaderIter(data, h);
    for i := 0 to h.phnum
      modifies buf, it
      invariant it.idx == i && it.data == data && it.header == h
      invariant PlanFrom(m, data, hs, h.entry, 0, buf.Length, maxSegments)
          == PlanFrom(m, data, hs, h.entry, i, buf.Length, maxSegments)
      invariant forall j {:trigger buf[j]} :: 0 <= j < buf.Length ==>
          buf[j] == if j < i then Slot(m, data, hs[j], old(buf[j])) else old(buf[j])
    {
      var next := it.Next();
      assert next == Some(hs[i]);
      if !next.value.Ok? {
        return Some(if next.value.Err? then BadElf(next.value.error) else PlanPanic);
      }
      var p := next.value.value;
      if p.kind == PT_LOAD {
        stop := Refusal(m, data, p, i, buf.Length, maxSegments);
        if stop.Some? {
          return;
        }
        buf[i] := SegmentOf(m, data, p);
      }
    }
    stop := None;
  }

  method BuildLoadPlan(m: Mode, data: seq<Byte>, maxSegments: nat, buf: array<LoadSegment>) returns (r: PlanResult)
    modifies buf
    ensures r == PlanOf(m, data, buf.Length, maxSegments)
    ensures r.Plan? ==> |data| >= 64 && NewAddr(m, Le(data[0x18..0x20])) == Some(r.entry)
    ensures r.Plan? ==> r.count <= buf.Length && ParseHeader(data).Ok? && r.count == ParseHeader(data).value.phnum
    ensures r.Plan? ==> forall i {:trigger buf[i]} :: 0 <= i < r.count ==>
        buf[i] == Slot(m, data, AllHeaders(data, ParseHeader(data).value)[i], old(buf[i]))
  {
    var parsed := ParseHeader(data);
    if !parsed.Ok? {
      return if parsed.Err? then BadElf(parsed.error) else PlanPanic;
    }
    var h := parsed.value;
    PlanIff(m, data, AllHeaders(data, h), h.entry, 0, buf.Length, maxSegments);
    var stop := FillSlots(m, data, h, maxSegments, buf, AllHeaders(data, h));
    if stop.Some? {
      return stop.value;
    }
    var entry := NewAddr(m, h.entry);
    if entry.None? || h.phnum > buf.Length {
      return PlanPanic;
    }
    return Plan(entry.value, h.phnum);
  }

  const DEFAULT := LoadSegment(0, 0, [], 0, {}, 0)

  /** The segments of an image planned into a buffer of default slots. */
  function Segments(m: Mode, data: seq<Byte>, hs: Headers): (s: seq<LoadSegment>)
    ensures |s| == |hs|
  {
    seq(|hs|, i requires 0 <= i < |hs| => Slot(m, data, hs[i], DEFAULT))
  }

  /** A plan means that every loadable header passed its checks. */
  lemma {:induction false} PlanMeans(m: Mode, data: seq<Byte>, hs: Headers, entry: nat, i: nat, slots: nat,
      maxSegments: nat, k: nat)
    requires PlanFrom(m, data, hs, entry, i, slots, maxSegments).Plan? && i <= k < |hs|
    ensures hs[k].Ok?
    ensures Loadable(hs[k]) ==> Refusal(m, data, hs[k].value, k, slots, maxSegments) == None
    ensures Loadable(hs[k]) ==> Segments(m, data, hs)[k] == SegmentOf(m, data, hs[k].value)
    decreases |hs| - i
  {
    if i < k {
      PlanMeans(m, data, hs, entry, i + 1, slots, maxSegments, k);
    }
  }

  /** The address is aligned to a power of two. */
  ghost predicate AlignedTo(a: nat, align: nat) {
    align != 0 && a % align == 0 && exists k: nat {:trigger Shl(1, k)} :: align == Shl(1, k)
  }

  /** A loadable header, number `i`, that is accepted: it lies within the buffer and the cap, its data within
      the file, its address is one and aligned as it says, and it takes no more of the file than of memory. */
  ghost predicate Accepted(m: Mode, data: seq<Byte>, p: Phdr, i: nat, slots: nat, maxSegments: nat) {
    && i < slots && i < maxSegments && p.offset + p.filesz <= |data| && p.offset + p.filesz < WORD
    && NewAddr(m, p.vaddr).Some? && AlignedTo(NewAddr(m, p.vaddr).value, p.align) && p.filesz <= p.memsz
  }

  lemma {:induction false} AlignedIff(a: nat, align: nat)
    ensures AlignedTo(a, align) <==> align != 0 && PowerOfTwo(align) && a % align == 0
  {
    PowerOfTwoIs(align);
    if PowerOfTwo(align) {
      var k: nat :| align == Shl(1, k);
    }
    if AlignedTo(a, align) {
      var k: nat :| align == Shl(1, k);
      ShlPower(k);
    }
  }

  /** What is wrong with a loadable header, if anything. */
  lemma {:induction false} RefusalIff(m: Mode, data: seq<Byte>, p: Phdr, i: nat, slots: nat, maxSegments: nat)
    ensures var r, reach := Refusal(m, data, p, i, slots, maxSegments), p.offset + p.filesz;
            && (r == None <==> Accepted(m, data, p, i, slots, maxSegments))
            && (r == Some(TooManySegments) <==> i >= slots || i >= maxSegments)
            && (r == Some(BadElf(OutOfBounds)) <==> i < slots && i < maxSegments && |data| < reach < WORD)
            && (r == Some(PlanPanic) <==>
                  && i < slots && i < maxSegments
                  && (reach >= WORD || (reach <= |data| && NewAddr(m, p.vaddr).None?)))
            && (r == Some(Misaligned) <==>
                  && i < slots && i < maxSegments && reach <= |data| && reach < WORD
                  && NewAddr(m, p.vaddr).Some? && !AlignedTo(NewAddr(m, p.vaddr).value, p.align))
            && (r == Some(DataExceedsMemory) <==>
                  && i < slots && i < maxSegments && reach <= |data| && reach < WORD && p.memsz < p.filesz
                  && NewAddr(m, p.vaddr).Some? && AlignedTo(NewAddr(m, p.vaddr).value, p.align))
  {
    if NewAddr(m, p.vaddr).Some? {
      AlignedIff(NewAddr(m, p.vaddr).value, p.align);
    }
  }

  /** Header `k` can be read and is either not loadable or accepted. */
  ghost predicate Passes(m: Mode, data: seq<Byte>, h: Result<Phdr>, k: nat, slots: nat, maxSegments: nat) {
    h.Ok? && (h.value.kind == 1 ==> Accepted(m, data, h.value, k, slots, maxSegments))
  }

  /** There is a plan exactly if every header passes, the headers fit the buffer and the entry point is an
      address, and it says so. */
  lemma {:induction false} PlanIff(m: Mode, data: seq<Byte>, hs: Headers, entry: nat, i: nat, slots: nat,
      maxSegments: nat)
    requires i <= |hs|
    ensures PlanFrom(m, data, hs, entry, i, slots, maxSegments).Plan? <==>
            && |hs| <= slots && NewAddr(m, entry).Some?
            && forall k {:trigger hs[k]} :: i <= k < |hs| ==> Passes(m, data, hs[k], k, slots, maxSegments)
    ensures PlanFrom(m, data, hs, entry, i, slots, maxSegments).Plan? ==>
              PlanFrom(m, data, hs, entry, i, slots, maxSegments) == Plan(NewAddr(m, entry).value, |hs|)
    decreases |hs| - i
  {
    if i < |hs| {
      PlanIff(m, data, hs, entry, i + 1, slots, maxSegments);
      if hs[i].Ok? {
        RefusalIff(m, data, hs[i].value, i, slots, maxSegments);
      }
    }
  }

  /** Otherwise the first header that does not pass decides what is reported. */
  lemma {:induction false} FirstDecides(m: Mode, data: seq<Byte>, hs: Headers, entry: nat, i: nat, slots: nat,
      maxSegments: nat, k: nat)
    requires i <= k < |hs| && !Passes(m, data, hs[k], k, slots, maxSegments)
    requires forall j {:trigger hs[j]} :: i <= j < k ==> Passes(m, data, hs[j], j, slots, maxSegments)
    ensures PlanFrom(m, data, hs, entry, i, slots, maxSegments) == match hs[k]
              case Err(e) => BadElf(e)
              case Panic => PlanPanic
              case Ok(p) => var r := Refusal(m, data, p, k, slots, maxSegments); if r.Some? then r.value else PlanPanic
    ensures hs[k].Ok? ==> Refusal(m, data, hs[k].value, k, slots, maxSegments).Some?
    decreases k - i
  {
    if hs[i].Ok? {
      RefusalIff(m, data, hs[i].value, i, slots, maxSegments);
    }
    if i < k {
      FirstDecides(m, data, hs, entry, i + 1, slots, maxSegments, k);
    }
  }

  // ---------- the cap on the number of segments ----------

  /** The header can be read and, if loadable, passes every check but the cap. */
  predicate Sound(m: Mode, data: seq<Byte>, h: Result<Phdr>) {
    h.Ok? && (Loadable(h) ==> Refusal(m, data, h.value, 0, 1, 1).None?)
  }

  predicate AllSound(m: Mode, data: seq<Byte>, hs: Headers) {
    forall k {:trigger hs[k]} :: 0 <= k < |hs| ==> Sound(m, data, hs[k])
  }

  /** One more than the index of the last loadable header. */
  function Reach(hs: Headers): nat {
    if hs == [] then 0 else if Loadable(hs[|hs| - 1]) then |hs| else Reach(hs[..|hs| - 1])
  }

  /** The number of loadable headers, which the cap is documented to be about. */
  function LoadCount(hs: Headers): nat {
    if hs == [] then 0 else LoadCount(hs[..|hs| - 1]) + if Loadable(hs[|hs| - 1]) then 1 else 0
  }

  lemma {:induction false} ReachIs(hs: Headers, n: nat)
    ensures Reach(hs) <= |hs|
    ensures Reach(hs) > n <==> exists k {:trigger hs[k]} :: n <= k < |hs| && Loadable(hs[k])
  {
    if hs != [] && !Loadable(hs[|hs| - 1]) {
      var init := hs[..|hs| - 1];
      ReachIs(init, n);
      if k :| n <= k < |hs| && Loadable(hs[k]) {
        assert init[k] == hs[k];
      }
      if k :| n <= k < |init| && Loadable(init[k]) {
        assert hs[k] == init[k];
      }
    }
  }

  /** From header `i` on, the plan is refused for their number exactly when a loadable one lies beyond the
      slots or the cap. */
  lemma {:induction false} TooManyFrom(m: Mode, data: seq<Byte>, hs: Headers, entry: nat, i: nat, slots: nat,
      maxSegments: nat)
    requires AllSound(m, data, hs)
    ensures PlanFrom(m, data, hs, entry, i, slots, maxSegments) == TooManySegments
       <==> exists k {:trigger hs[k]} :: i <= k < |hs| && Loadable(hs[k]) && (k >= slots || k >= maxSegments)
    decreases |hs| - i
  {
    if i < |hs| {
      assert Sound(m, data, hs[i]);
      TooManyFrom(m, data, hs, entry, i + 1, slots, maxSegments);
    }
  }

  /** An image with nothing else wrong is refused for the number of its segments if and only if its last
      loadable header has an index beyond the slots or the cap. */
  lemma {:induction false} TooManyIff(m: Mode, data: seq<Byte>, hs: Headers, entry: nat, slots: nat, maxSegments: nat)
    requires AllSound(m, data, hs)
    ensures PlanFrom(m, data, hs, entry, 0, slots, maxSegments) == TooManySegments
       <==> Reach(hs) > if slots < maxSegments then slots else maxSegments
  {
    TooManyFrom(m, data, hs, entry, 0, slots, maxSegments);
    ReachIs(hs, if slots < maxSegments then slots else maxSegments);
  }

  /** No loadable header comes after one that is not. */
  predicate LoadsFirst(hs: Headers) {
    forall i, j {:trigger hs[i], hs[j]} :: 0 <= i < j < |hs| && Loadable(hs[j]) ==> Loadable(hs[i])
  }

  lemma {:induction false} AllLoads(hs: Headers)
    ensures LoadCount(hs) <= |hs|
    ensures LoadCount(hs) == |hs| <==> forall k {:trigger hs[k]} :: 0 <= k < |hs| ==> Loadable(hs[k])
  {
    if hs != [] {
      var init := hs[..|hs| - 1];
      AllLoads(init);
      assert forall k {:trigger init[k]} :: 0 <= k < |init| ==> init[k] == hs[k];
      if forall k {:trigger init[k]} :: 0 <= k < |init| ==> Loadable(init[k]) {
        assert forall k {:trigger hs[k]} :: 0 <= k < |init| ==> hs[k] == init[k];
      }
    }
  }

  lemma {:induction false} CountReaches(hs: Headers)
    ensures LoadCount(hs) <= Reach(hs)
    ensures LoadCount(hs) == Reach(hs) <==> LoadsFirst(hs)
  {
    if hs != [] {
      var init := hs[..|hs| - 1];
      if Loadable(hs[|hs| - 1]) {
        AllLoads(hs);
      } else {
        CountReaches(init);
        assert forall k {:trigger init[k]} {:trigger hs[k]} :: 0 <= k < |init| ==> init[k] == hs[k];
      }
    }
  }

  /** The cap counts loadable headers, as documented, for every value of it if and only if they come first
      in the table. */
  lemma {:induction false} CapCountsIff(m: Mode, data: seq<Byte>, hs: Headers, entry: nat, slots: nat)
    requires AllSound(m, data, hs) && |hs| <= slots
    ensures (forall cap: nat {:trigger PlanFrom(m, data, hs, entry, 0, slots, cap)} ::
              PlanFrom(m, data, hs, entry, 0, slots, cap) == TooManySegments <==> LoadCount(hs) > cap)
       <==> LoadsFirst(hs)
  {
    ReachIs(hs, 0);
    CountReaches(hs);
    TooManyIff(m, data, hs, entry, slots, LoadCount(hs));
    if LoadsFirst(hs) {
      forall cap: nat {:trigger PlanFrom(m, data, hs, entry, 0, slots, cap)}
        ensures PlanFrom(m, data, hs, entry, 0, slots, cap) == TooManySegments <==> LoadCount(hs) > cap
      {
        TooManyIff(m, data, hs, entry, slots, cap);
      }
    }
  }

  /** A slot that no loadable header fills is rounded out to no page at all. */
  lemma {:induction false} DefaultIsNothing()
    ensures DEFAULT.Pages() == 0 && DEFAULT.memSize == 0
  {
  }

  function LeBytes(v: nat, n: nat): (w: seq<Byte>)
    ensures |w| == n
    decreases n
  {
    if n == 0 then [] else [v % 256] + LeBytes(v / 256, n - 1)
  }

  function Pow256(n: nat): nat {
    if n == 0 then 1 else 256 * Pow256(n - 1)
  }

  /** Every value that fits is spelled by `n` bytes that are read back as it. */
  lemma {:induction false} LeRoundTrip(v: nat, n: nat)
    requires v < Pow256(n)
    ensures Le(LeBytes(v, n)) == v
    decreases n
  {
    if n > 0 {
      LeRoundTrip(v / 256, n - 1);
      assert LeBytes(v, n)[1..] == LeBytes(v / 256, n - 1);
    }
  }

  /** The bytes of an ELF header between and around the fields that are used. */
  datatype HeaderText = HeaderText(ident: seq<Byte>, entry: seq<Byte>, phoff: seq<Byte>, sections: seq<Byte>,
                                   ehsize: seq<Byte>, phentsize: seq<Byte>, phnum: seq<Byte>, tail: seq<Byte>)

  predicate SpellsHeader(t: HeaderText, h: Header) {
    && |t.ident| == 18 && |t.entry| == 8 && |t.phoff| == 8 && |t.sections| == 12
    && |t.ehsize| == 2 && |t.phentsize| == 2 && |t.phnum| == 2 && |t.tail| == 6
    && Le(t.ehsize) == 64 && h == Header(Le(t.entry), Le(t.phoff), Le(t.phentsize), Le(t.phnum))
  }

  function EncodeHeader(t: HeaderText): seq<Byte> {
    [0x7f, 69, 76, 70] + [2, 1] + t.ident + t.entry + t.phoff + t.sections + t.ehsize + t.phentsize + t.phnum + t.tail
  }

  datatype PhdrText = PhdrText(kind: seq<Byte>, flags: seq<Byte>, offset: seq<Byte>, vaddr: seq<Byte>, paddr: seq<Byte>,
                               filesz: seq<Byte>, memsz: seq<Byte>, align: seq<Byte>)

  predicate SpellsPhdr(t: PhdrText, p: Phdr) {
    && |t.kind| == 4 && |t.flags| == 4 && |t.offset| == 8 && |t.vaddr| == 8 && |t.paddr| == 8
    && |t.filesz| == 8 && |t.memsz| == 8 && |t.align| == 8
    && p == Phdr(Le(t.kind), Le(t.flags), Le(t.offset), Le(t.vaddr), Le(t.filesz), Le(t.memsz), Le(t.align))
  }

  function EncodePhdr(t: PhdrText): seq<Byte> {
    t.kind + t.flags + t.offset + t.vaddr + t.paddr + t.filesz + t.memsz + t.align
  }

  lemma {:induction false} PhdrRoundTrip(t: PhdrText, p: Phdr)
    requires SpellsPhdr(t, p)
    ensures |EncodePhdr(t)| == 56 && ParsePhdr(EncodePhdr(t)) == Ok(p)
  {
    var w := EncodePhdr(t);
    assert w[0..4] == t.kind && w[4..8] == t.flags && w[8..16] == t.offset && w[16..24] == t.vaddr;
    assert w[32..40] == t.filesz && w[40..48] == t.memsz && w[48..56] == t.align;
  }

  lemma {:induction false} Prefixed(data: seq<Byte>, p: seq<Byte>, x: seq<Byte>, n: nat)
    requires n == |p| + |x| <= |data| && data[..n] == p + x
    ensures data[..|p|] == data[0..|p|] == p && data[|p|..n] == x
  {
    assert data[..|p|] == data[..n][..|p|] && data[|p|..n] == data[..n][|p|..];
  }

  lemma {:induction false} HeaderFields(data: seq<Byte>, t: HeaderText, h: Header)
    requires SpellsHeader(t, h) && At(data, 0, EncodeHeader(t))
    ensures 64 <= |data| && data[0..4] == ELFMAG && data[4] == 2 && data[5] == 1
    ensures data[0x18..0x20] == t.entry && data[0x20..0x28] == t.phoff && data[0x34..0x36] == t.ehsize
    ensures data[0x36..0x38] == t.phentsize && data[0x38..0x3a] == t.phnum
  {
    var a := ELFMAG + [2, 1] + t.ident;
    var b := a + t.entry;
    var c := b + t.phoff;
    var d := c + t.sections;
    var e := d + t.ehsize;
    var f := e + t.phentsize;
    assert data[..64] == f + t.phnum + t.tail;
    Prefixed(data, f + t.phnum, t.tail, 64);
    Prefixed(data, f, t.phnum, 58);
    Prefixed(data, e, t.phentsize, 56);
    Prefixed(data, d, t.ehsize, 54);
    Prefixed(data, c, t.sections, 52);
    Prefixed(data, b, t.phoff, 40);
    Prefixed(data, a, t.entry, 32);
    Prefixed(data, ELFMAG + [2, 1], t.ident, 24);
    Prefixed(data, ELFMAG, [2, 1], 6);
    assert data[4..6] == [2, 1];
    assert data[4] == data[4..6][0] && data[5] == data[4..6][1];
  }

  /** A file that holds a header and program headers where it says is read back as them. */
  lemma {:induction false} ElfRoundTrip(data: seq<Byte>, t: HeaderText, h: Header, ts: seq<PhdrText>, ps: seq<Phdr>)
    requires SpellsHeader(t, h) && At(data, 0, EncodeHeader(t)) && h.phentsize == 56 && |ts| == |ps| == h.phnum
    requires h.phoff + 56 * h.phnum <= |data| < WORD
    requires forall i {:trigger ps[i]} :: 0 <= i < |ps| ==>
               SpellsPhdr(ts[i], ps[i]) && At(data, h.phoff + i * 56, EncodePhdr(ts[i]))
    ensures ParseHeader(data) == Ok(h) && |AllHeaders(data, h)| == |ps|
    ensures forall i {:trigger ps[i]} :: 0 <= i < |ps| ==> AllHeaders(data, h)[i] == Ok(ps[i])
  {
    HeaderFields(data, t, h);
    forall i {:trigger ps[i]} | 0 <= i < |ps|
      ensures AllHeaders(data, h)[i] == Ok(ps[i])
    {
      PhdrRoundTrip(ts[i], ps[i]);
    }
  }

  lemma {:induction false} SecondLoads(m: Mode, data: seq<Byte>, hs: Headers, entry: nat, a: Phdr, b: Phdr, slots: nat,
      cap: nat)
    requires hs == [Ok(a), Ok(b)] && a.kind != PT_LOAD && b.kind == PT_LOAD && slots == 2
    requires Refusal(m, data, b, 0, 1, 1).None? && NewAddr(m, entry).Some?
    ensures LoadCount(hs) == 1
    ensures PlanFrom(m, data, hs, entry, 0, slots, cap) == if cap < 2 then TooManySegments
        else Plan(NewAddr(m, entry).value, 2)
  {
    assert hs[..1] == [hs[0]] && [hs[0]][..0] == [] && LoadCount([hs[0]]) == 0;
    assert PlanFrom(m, data, hs, entry, 0, slots, cap) == PlanFrom(m, data, hs, entry, 1, slots, cap);
    if cap >= 2 {
      assert PlanFrom(m, data, hs, entry, 1, slots, cap) == PlanFrom(m, data, hs, entry, 2, slots, cap);
    }
  }

  lemma {:induction false} TwoHeaders(data: seq<Byte>, t: HeaderText, h: Header, ts: seq<PhdrText>, a: Phdr, b: Phdr)
    requires SpellsHeader(t, h) && At(data, 0, EncodeHeader(t)) && h.phentsize == 56 && h.phnum == |ts| == 2
    requires h.phoff + 112 <= |data| < WORD && SpellsPhdr(ts[0], a) && SpellsPhdr(ts[1], b)
    requires At(data, h.phoff, EncodePhdr(ts[0])) && At(data, h.phoff + 56, EncodePhdr(ts[1]))
    ensures ParseHeader(data) == Ok(h) && AllHeaders(data, h) == [Ok(a), Ok(b)]
  {
    var ps := [a, b];
    ElfRoundTrip(data, t, h, ts, ps);
    assert AllHeaders(data, h)[0] == Ok(ps[0]) && AllHeaders(data, h)[1] == Ok(ps[1]);
  }

  /** A file with two program headers, of which only the second is loadable, has one segment to load, can be
      planned under a cap of two, and is refused under a cap of one. */
  lemma {:induction false} CapMiscounts(m: Mode, data: seq<Byte>, t: HeaderText, h: Header, ts: seq<PhdrText>, a: Phdr,
      b: Phdr)
    requires SpellsHeader(t, h) && At(data, 0, EncodeHeader(t)) && h.phentsize == 56 && h.phnum == |ts| == 2
    requires h.phoff + 112 <= |data| < WORD && SpellsPhdr(ts[0], a) && SpellsPhdr(ts[1], b)
    requires At(data, h.phoff, EncodePhdr(ts[0])) && At(data, h.phoff + 56, EncodePhdr(ts[1]))
    requires a.kind != PT_LOAD && b.kind == PT_LOAD && Refusal(m, data, b, 0, 1, 1).None? && NewAddr(m, h.entry).Some?
    ensures ParseHeader(data) == Ok(h) && LoadCount(AllHeaders(data, h)) == 1
    ensures PlanOf(m, data, 2, 2).Plan? && PlanOf(m, data, 2, 1) == TooManySegments
  {
    var hs := AllHeaders(data, h);
    TwoHeaders(data, t, h, ts, a, b);
    SecondLoads(m, data, hs, h.entry, a, b, 2, 1);
    SecondLoads(m, data, hs, h.entry, a, b, 2, 2);
  }

  // ---------- what is accepted is an image ----------

  lemma {:induction false} HeaderText64(w: seq<Byte>) returns (t: HeaderText)
    requires |w| == 64 && w[..6] == [0x7f, 0x45, 0x4c, 0x46, 2, 1]
    ensures EncodeHeader(t) == w && t.entry == w[0x18..0x20] && t.phoff == w[0x20..0x28] && t.ehsize == w[0x34..0x36]
    ensures t.phentsize == w[0x36..0x38] && t.phnum == w[0x38..0x3a]
    ensures |t.ident| == 18 && |t.sections| == 12 && |t.tail| == 6
  {
    t := HeaderText(w[6..0x18], w[0x18..0x20], w[0x20..0x28], w[0x28..0x34], w[0x34..0x36], w[0x36..0x38],
      w[0x38..0x3a], w[0x3a..]);
    assert [0x7f, 0x45, 0x4c, 0x46] + [2, 1] == w[..6];
    assert w[..6] + t.ident == w[..0x18];
    assert w[..0x18] + t.entry == w[..0x20];
    assert w[..0x20] + t.phoff == w[..0x28];
    assert w[..0x28] + t.sections == w[..0x34];
    assert w[..0x34] + t.ehsize == w[..0x36];
    assert w[..0x36] + t.phentsize == w[..0x38];
    assert w[..0x38] + t.phnum == w[..0x3a];
    assert w[..0x3a] + t.tail == w;
  }

  /** The table of program headers lies within the file. */
  predicate TableWithin(data: seq<Byte>, h: Header) {
    h.phnum == 0 || (h.phentsize == 56 && h.phoff + 56 * h.phnum <= |data| && h.phoff + 56 * h.phnum < WORD)
  }

  /** A header is accepted exactly if the file begins with it and holds the table it names. */
  lemma {:induction false} HeaderIff(data: seq<Byte>, h: Header)
    ensures ParseHeader(data) == Ok(h) <==>
            exists t :: SpellsHeader(t, h) && At(data, 0, EncodeHeader(t)) && TableWithin(data, h)
  {
    if ParseHeader(data) == Ok(h) {
      var w := data[..64];
      assert w[..4] == data[0..4] && w[4] == 2 && w[5] == 1;
      assert w[..6] == w[..4] + [w[4], w[5]];
      var t := HeaderText64(w);
      SameSlices(data, w);
      assert data[0..64] == w;
      assert SpellsHeader(t, h) && At(data, 0, EncodeHeader(t)) && TableWithin(data, h);
    }
    forall t | SpellsHeader(t, h) && At(data, 0, EncodeHeader(t)) && TableWithin(data, h)
      ensures ParseHeader(data) == Ok(h)
    {
      HeaderFields(data, t, h);
    }
  }

  /** The file begins like a little-endian 64-bit ELF file whose header has 64 bytes. */
  predicate Elf64Le(data: seq<Byte>) {
    |data| >= 64 && At(data, 0, [0x7f, 69, 76, 70, 2, 1]) && At(data, 0x34, [64, 0])
  }

  /** Otherwise the error tells the first thing that is wrong. */
  lemma {:induction false} HeaderErrors(data: seq<Byte>)
    ensures var r := ParseHeader(data);
      && (r == Err(TooSmall) <==> |data| < 64)
      && (r == Err(BadMagic) <==> |data| >= 64 && !At(data, 0, [0x7f, 69, 76, 70]))
      && (r == Err(NotElf64) <==> |data| >= 64 && At(data, 0, [0x7f, 69, 76, 70]) && data[4] != 2)
      && (r == Err(NotLittleEndian) <==> |data| >= 64 && At(data, 0, [0x7f, 69, 76, 70, 2]) && data[5] != 1)
      && (r == Err(BadHeaderSize) <==>
            |data| >= 64 && At(data, 0, [0x7f, 69, 76, 70, 2, 1]) && !At(data, 0x34, [64, 0]))
      && (r == Err(BadPhEntSize) <==>
            Elf64Le(data) && Le(data[0x38..0x3a]) != 0 && Le(data[0x36..0x38]) != 56)
      && (r == Err(OutOfBounds) <==>
            && Elf64Le(data) && Le(data[0x38..0x3a]) != 0 && Le(data[0x36..0x38]) == 56
            && |data| < Le(data[0x20..0x28]) + 56 * Le(data[0x38..0x3a]) < WORD)
      && (r == Panic <==>
            && Elf64Le(data) && Le(data[0x38..0x3a]) != 0 && Le(data[0x36..0x38]) == 56
            && Le(data[0x20..0x28]) + 56 * Le(data[0x38..0x3a]) >= WORD)
  {
    if |data| >= 64 {
      MagicBytes(data);
      SizeField(data);
    }
  }

  lemma {:induction false} MagicBytes(data: seq<Byte>)
    requires |data| >= 64
    ensures At(data, 0, [0x7f, 69, 76, 70]) <==> data[0..4] == [0x7f, 69, 76, 70]
    ensures At(data, 0, [0x7f, 69, 76, 70, 2]) <==> data[0..4] == [0x7f, 69, 76, 70] && data[4] == 2
    ensures At(data, 0, [0x7f, 69, 76, 70, 2, 1]) <==> data[0..4] == [0x7f, 69, 76, 70] && data[4] == 2 && data[5] == 1
  {
    assert data[0..5] == data[0..4] + [data[4]] && data[0..6] == data[0..5] + [data[5]];
  }

  lemma {:induction false} SizeField(data: seq<Byte>)
    requires |data| >= 64
    ensures Le(data[0x34..0x36]) == 64 <==> At(data, 0x34, [64, 0])
  {
    var w := data[0x34..0x36];
    assert w == [w[0], w[1]] && w[1..] == [w[1]];
    assert Le(w[1..]) == w[1] && Le(w) == w[0] + 256 * Le(w[1..]);
  }

  lemma {:induction false} SameSlices(data: seq<Byte>, w: seq<Byte>)
    requires |data| >= 64 && w == data[..64]
    ensures w[0x18..0x20] == data[0x18..0x20] && w[0x20..0x28] == data[0x20..0x28] && w[0x34..0x36] == data[0x34..0x36]
    ensures w[0x36..0x38] == data[0x36..0x38] && w[0x38..0x3a] == data[0x38..0x3a]
  {
  }

  /** A program header is read exactly as the 56 bytes at its place spell it. */
  lemma {:induction false} PhdrIff(data: seq<Byte>, h: Header, i: nat, p: Phdr)
    requires ParseHeader(data) == Ok(h) && i < h.phnum
    ensures PhdrAt(data, h, i) == Ok(p) <==> exists t :: SpellsPhdr(t, p) && At(data, h.phoff + 56 * i, EncodePhdr(t))
  {
    var at, w := PhdrBytes(data, h, i);
    var u := PhdrText56(w);
    if PhdrAt(data, h, i) == Ok(p) {
      assert SpellsPhdr(u, p) && At(data, at, EncodePhdr(u));
    }
    forall t | SpellsPhdr(t, p) && At(data, at, EncodePhdr(t))
      ensures PhdrAt(data, h, i) == Ok(p)
    {
      PhdrRoundTrip(t, p);
    }
  }

  lemma {:induction false} PhdrBytes(data: seq<Byte>, h: Header, i: nat) returns (at: nat, w: seq<Byte>)
    requires ParseHeader(data) == Ok(h) && i < h.phnum
    ensures at == h.phoff + 56 * i && at + 56 <= |data| && w == data[at..at + 56] && PhdrAt(data, h, i) == ParsePhdr(w)
  {
    HeadersReadable(data, i);
    at := h.phoff + i * 56;
    w := data[at..at + 56];
  }

  lemma {:induction false} PhdrText56(w: seq<Byte>) returns (t: PhdrText)
    requires |w| == 56
    ensures EncodePhdr(t) == w && ParsePhdr(w).Ok? && SpellsPhdr(t, ParsePhdr(w).value)
  {
    t := PhdrText(w[0..4], w[4..8], w[8..16], w[16..24], w[24..32], w[32..40], w[40..48], w[48..56]);
    assert w[0..4] + w[4..8] == w[..8] && w[..8] + w[8..16] == w[..16] && w[..16] + w[16..24] == w[..24];
    assert w[..24] + w[24..32] == w[..32] && w[..32] + w[32..40] == w[..40] && w[..40] + w[40..48] == w[..48];
    assert w[..48] + w[48..56] == w;
  }
}
