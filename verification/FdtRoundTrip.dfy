/** A device tree laid out in a structure block, with NOP words wherever the format allows them, and
    reading it back. */
module FdtRoundTrip {
  import opened Bytes
  import opened Fdt
  import opened FdtTree
  import opened Wrappers

  /** A property in the bytes `[pos, end)`, after `nops` NOP words, with its name at `nameOff` of the
      strings block; None is a name that no terminator ends. */
  datatype Prop = Prop(pos: nat, end: nat, nops: nat, nameOff: nat, name: Option<seq<Byte>>, data: seq<Byte>)

  /** A node in the bytes `[pos, end)`, after `nops` NOP words: its properties in `[next, start)`, its
      children in `[start, stop)`, then `endNops` NOP words and the end token. */
  datatype Item = Item(pos: nat, nops: nat, name: seq<Byte>, next: nat, props: List<Prop>, start: nat,
      children: List<Item>, stop: nat, endNops: nat, end: nat)

  /** What a reader sees of a tree. */
  datatype View = View(name: seq<Byte>, props: List<(Option<seq<Byte>>, seq<Byte>)>, children: List<View>)

  /** `n` NOP words from `pos` on, then the token `k`. */
  predicate TokenAfter(b: seq<Byte>, pos: nat, n: nat, k: Byte)
    decreases n
  {
    if n == 0 then At(b, pos, [0, 0, 0, k]) else At(b, pos, [0, 0, 0, 4]) && TokenAfter(b, pos + 4, n - 1, k)
  }

  predicate NameAt(f: Fdt, off: nat, name: Option<seq<Byte>>) {
    match name case Some(s) => HoldsName(f, off, s) case None => Unended(f, off)
  }

  predicate HoldsProp(b: seq<Byte>, p: Prop) {
    var q := p.pos + 4 * p.nops;
    && TokenAfter(b, p.pos, p.nops, 3) && p.end == q + 12 + Pad4(|p.data|) <= |b|
    && Be32At(b, q + 4) == |p.data| && Be32At(b, q + 8) == p.nameOff && b[q + 12..q + 12 + |p.data|] == p.data
  }

  predicate HoldsProps(f: Fdt, pos: nat, s: List<Prop>, end: nat)
    decreases s
  {
    match s
    case Nil => pos == end
    case Cons(p, rest) =>
      p.pos == pos && HoldsProp(f.block, p) && NameAt(f, p.nameOff, p.name) && HoldsProps(f, p.end, rest, end)
  }

  /** The begin token, the name and its terminator. */
  predicate HoldsHead(b: seq<Byte>, pos: nat, nops: nat, name: seq<Byte>, next: nat) {
    var at := pos + 4 * nops + 4;
    && NoNul(name) && Utf8(name) && TokenAfter(b, pos, nops, 1) && next == at + Pad4(|name| + 1) <= |b|
    && b[at..at + |name|] == name && b[at + |name|] == 0
  }

  /** The blob holds the node `i` and its names, whatever the padding holds and whatever follows. */
  predicate HoldsItem(f: Fdt, i: Item)
    decreases i
  {
    && HoldsHead(f.block, i.pos, i.nops, i.name, i.next) && HoldsProps(f, i.next, i.props, i.start)
    && HoldsItems(f, i.start, i.children, i.stop)
    && TokenAfter(f.block, i.stop, i.endNops, 2) && i.end == i.stop + 4 * i.endNops + 4
  }

  predicate HoldsItems(f: Fdt, pos: nat, s: List<Item>, end: nat)
    decreases s
  {
    match s
    case Nil => pos == end
    case Cons(i, rest) => i.pos == pos && HoldsItem(f, i) && HoldsItems(f, i.end, rest, end)
  }

  /** What iterating the properties from `pos` on shows. */
  function SeenProps(x: Lexer, pos: nat): List<(Option<seq<Byte>>, seq<Byte>)>
    requires Moves(x)
    decreases x.size - pos
  {
    match ParseProperty(x, pos)
    case Got(p) => Cons((p.prop.name, p.prop.data), SeenProps(x, p.rest))
    case _ => Nil
  }

  /** What iterating a node's properties and, recursively, its children shows. */
  function Seen(x: Lexer, r: Reader, n: Node): View
    requires Moves(x) && Forward(r)
    decreases r.size - n.children.data, 1
  {
    View(n.name, SeenProps(x, n.props), SeenAll(x, r, n.children))
  }

  function SeenAll(x: Lexer, r: Reader, it: NodeIter): List<View>
    requires Moves(x) && Forward(r)
    decreases r.size - it.data, 0
  {
    match r.read(it)
    case None => Nil
    case Some(p) => Cons(Seen(x, r, p.node), SeenAll(x, r, Advance(it, p.rest)))
  }

  /** The tree laid out, without its NOPs and positions. */
  function Meant(i: Item): View {
    View(i.name, MeantProps(i.props), MeantAll(i.children))
  }

  function MeantProps(s: List<Prop>): List<(Option<seq<Byte>>, seq<Byte>)> {
    match s
    case Nil => Nil
    case Cons(p, rest) => Cons((p.name, p.data), MeantProps(rest))
  }

  function MeantAll(s: List<Item>): List<View> {
    match s
    case Nil => Nil
    case Cons(i, rest) => Cons(Meant(i), MeantAll(rest))
  }

  lemma {:induction false} TokenIff(b: seq<Byte>, pos: nat, k: Byte)
    ensures Token(b, pos, k) <==> At(b, pos, [0, 0, 0, k])
  {
    if pos + 4 <= |b| {
      assert b[pos..pos + 4] == [b[pos], b[pos + 1], b[pos + 2], b[pos + 3]];
    }
  }

  /** NOP words are skipped exactly. */
  lemma {:induction false} SkipExactly(b: seq<Byte>, pos: nat, n: nat, k: Byte)
    requires TokenAfter(b, pos, n, k) && k != 4
    ensures pos + 4 * n + 4 <= |b| && SkipNops(b, pos) == pos + 4 * n && Token(b, pos + 4 * n, k)
    decreases n
  {
    TokenIff(b, pos, 4);
    TokenIff(b, pos, k);
    if n > 0 {
      SkipExactly(b, pos + 4, n - 1, k);
    }
  }

  lemma {:induction false} Skipped(b: seq<Byte>, pos: nat, q: nat, k: Byte) returns (n: nat)
    requires pos <= |b| && q == SkipNops(b, pos) && Token(b, q, k)
    ensures q == pos + 4 * n && TokenAfter(b, pos, n, k)
    decreases |b| - pos
  {
    if Token(b, pos, NOP) {
      TokenIff(b, pos, 4);
      n := Skipped(b, pos + 4, q, k);
      n := n + 1;
    } else {
      TokenIff(b, pos, k);
      n := 0;
    }
  }

  lemma {:induction false} PadMultiple(k: nat, r: nat)
    ensures Pad4(4 * k + r) == 4 * k + Pad4(r)
  {
  }

  function Reported(p: Prop): RawProperty
    requires p.pos <= p.end
  {
    RawProperty(p.end, p.end - p.pos, p.nameOff, p.data)
  }

  lemma {:induction false} ParseRawIs(b: seq<Byte>, pos: nat, q: nat, n: nat, off: nat, data: seq<Byte>, span: nat)
    requires pos <= q && q + 12 + n <= |b| && SkipNops(b, pos) == q && Token(b, q, PROP) && |data| == n
    requires Be32At(b, q + 4) == n && Be32At(b, q + 8) == off && b[q + 12..q + 12 + n] == data
    requires Pad4(q + 12 + n - pos) == span && pos + span <= |b|
    ensures ParseRaw(b, pos) == Some(RawProperty(pos + span, span, off, data))
  {
  }

  lemma {:induction false} PropSpan(pos: nat, nops: nat, n: nat, end: nat)
    requires end == pos + 4 * nops + 12 + Pad4(n)
    ensures Pad4(pos + 4 * nops + 12 + n - pos) == end - pos && pos + 4 * nops + 12 + n <= end
  {
    PadMultiple(nops + 3, n);
    assert pos + 4 * nops + 12 + n - pos == 4 * (nops + 3) + n;
  }

  lemma {:induction false} PropParts(b: seq<Byte>, p: Prop) returns (q: nat, n: nat)
    requires HoldsProp(b, p)
    ensures q == p.pos + 4 * p.nops && n == |p.data| && q + 12 + n <= p.end <= |b| && TokenAfter(b, p.pos, p.nops, 3)
    ensures Be32At(b, q + 4) == n && Be32At(b, q + 8) == p.nameOff && b[q + 12..q + 12 + n] == p.data
    ensures Pad4(q + 12 + n - p.pos) == p.end - p.pos
  {
    q, n := p.pos + 4 * p.nops, |p.data|;
    PropSpan(p.pos, p.nops, n, p.end);
  }

  lemma {:induction false} PropRoundTrip(b: seq<Byte>, p: Prop)
    requires HoldsProp(b, p)
    ensures ParseRaw(b, p.pos) == Some(Reported(p))
  {
    var q, n := PropParts(b, p);
    SkipExactly(b, p.pos, p.nops, 3);
    ParseRawIs(b, p.pos, q, n, p.nameOff, p.data, p.end - p.pos);
  }

  lemma {:induction false} ParseHeadIs(b: seq<Byte>, pos: nat, k: nat, q: nat, name: seq<Byte>, next: nat)
    requires q == pos + 4 * k && next == q + 4 + Pad4(|name| + 1) <= |b|
    requires SkipNops(b, pos) == q && Token(b, q, BEGIN_NODE) && FindNul(b, q + 4) == q + 4 + |name|
    requires b[q + 4..q + 4 + |name|] == name && Utf8(name)
    ensures ParseHead(b, pos) == Some(Head(name, next))
  {
    PadMultiple(k + 1, |name| + 1);
    assert q + 4 + |name| + 1 - pos == 4 * (k + 1) + (|name| + 1);
  }

  lemma {:induction false} HeadRoundTrip(b: seq<Byte>, pos: nat, nops: nat, name: seq<Byte>, next: nat)
    requires HoldsHead(b, pos, nops, name, next)
    ensures ParseHead(b, pos) == Some(Head(name, next))
  {
    var q := pos + 4 * nops;
    SkipExactly(b, pos, nops, 1);
    FindNulIs(b, q + 4, name);
    ParseHeadIs(b, pos, nops, q, name, next);
  }

  lemma {:induction false} EndRoundTrip(b: seq<Byte>, pos: nat, n: nat)
    requires TokenAfter(b, pos, n, 2)
    ensures pos <= |b| && ParseEnd(b, pos) == Some(pos + 4 * n + 4)
  {
    SkipExactly(b, pos, n, 2);
  }

  /** Conversely, what is read as a head, a property or an end is laid out there. */
  lemma {:induction false} HeadHolds(b: seq<Byte>, pos: nat, h: Head) returns (nops: nat)
    requires pos <= |b| && ParseHead(b, pos) == Some(h)
    ensures HoldsHead(b, pos, nops, h.name, h.next)
  {
    var q := SkipNops(b, pos);
    nops := Skipped(b, pos, q, 1);
    var nul := FindNul(b, q + 4);
    PadMultiple(nops + 1, |h.name| + 1);
    assert nul + 1 - pos == 4 * (nops + 1) + (|h.name| + 1);
  }

  lemma {:induction false} PropHolds(b: seq<Byte>, pos: nat, r: RawProperty, name: Option<seq<Byte>>)
    returns (p: Prop)
    requires pos <= |b| && ParseRaw(b, pos) == Some(r)
    ensures HoldsProp(b, p) && p.pos == pos <= p.end && p.name == name && Reported(p) == r
  {
    var q := SkipNops(b, pos);
    var nops := Skipped(b, pos, q, 3);
    p := Prop(pos, r.rest, nops, r.nameOff, name, r.data);
    PropSpan(pos, nops, |r.data|, q + 12 + Pad4(|r.data|));
  }

  lemma {:induction false} EndHolds(b: seq<Byte>, pos: nat, end: nat) returns (n: nat)
    requires pos <= |b| && ParseEnd(b, pos) == Some(end)
    ensures TokenAfter(b, pos, n, 2) && end == pos + 4 * n + 4
  {
    n := Skipped(b, pos, SkipNops(b, pos), 2);
  }

  /** Other tokens are not taken for a property, or for a node. */
  lemma {:induction false} NotProp(b: seq<Byte>, pos: nat, n: nat, k: Byte)
    requires TokenAfter(b, pos, n, k) && k != 4 && k != 3
    ensures pos <= |b| && ParseRaw(b, pos) == None
  {
    SkipExactly(b, pos, n, k);
  }

  lemma {:induction false} NotHead(b: seq<Byte>, pos: nat, n: nat, k: Byte)
    requires TokenAfter(b, pos, n, k) && k != 4 && k != 1
    ensures pos <= |b| && ParseHead(b, pos) == None
  {
    SkipExactly(b, pos, n, k);
  }

  function Looked(name: Option<seq<Byte>>): Name {
    if name.Some? then Found(name.value) else Missing
  }

  /** The properties `s` as the lexer sees them, with something else after the last. */
  predicate PropsAt(x: Lexer, pos: nat, s: List<Prop>, end: nat)
    decreases s
  {
    match s
    case Nil => pos == end && x.prop(pos) == None
    case Cons(p, rest) =>
      && p.pos == pos <= p.end && x.prop(pos) == Some(Reported(p)) && x.name(p.nameOff) == Looked(p.name)
      && PropsAt(x, p.end, rest, end)
  }

  /** The node `i` as the lexer sees it. */
  predicate ItemAt(x: Lexer, i: Item)
    decreases i
  {
    && x.head(i.pos) == Some(Head(i.name, i.next)) && PropsAt(x, i.next, i.props, i.start)
    && ItemsAt(x, i.start, i.children, i.stop) && x.end(i.stop) == Some(i.end)
  }

  predicate ItemsAt(x: Lexer, pos: nat, s: List<Item>, end: nat)
    decreases s
  {
    match s
    case Nil => pos == end && x.head(pos) == None
    case Cons(i, rest) => i.pos == pos && ItemAt(x, i) && ItemsAt(x, i.end, rest, end)
  }

  predicate SameHead(x: Lexer, f: Fdt, pos: nat) { pos <= |f.block| ==> x.head(pos) == ParseHead(f.block, pos) }

  predicate SameProp(x: Lexer, f: Fdt, pos: nat) { pos <= |f.block| ==> x.prop(pos) == ParseRaw(f.block, pos) }

  predicate SameEnd(x: Lexer, f: Fdt, pos: nat) { pos <= |f.block| ==> x.end(pos) == ParseEnd(f.block, pos) }

  predicate SameName(x: Lexer, f: Fdt, off: nat) { x.name(off) == GetString(f, off) }

  /** The lexer reads the bytes of the blob. */
  ghost predicate Lexes(x: Lexer, f: Fdt) {
    && (forall pos: nat {:trigger SameHead(x, f, pos)} :: SameHead(x, f, pos))
    && (forall pos: nat {:trigger SameProp(x, f, pos)} :: SameProp(x, f, pos))
    && (forall pos: nat {:trigger SameEnd(x, f, pos)} :: SameEnd(x, f, pos))
    && (forall off: nat {:trigger SameName(x, f, off)} :: SameName(x, f, off))
  }

  lemma {:induction false} LexerLexes(f: Fdt)
    ensures Lexes(LexerOf(f), f)
  {
  }

  lemma {:induction false} LexProp(x: Lexer, f: Fdt, p: Prop)
    requires Lexes(x, f) && HoldsProp(f.block, p) && NameAt(f, p.nameOff, p.name)
    ensures p.pos <= p.end && x.prop(p.pos) == Some(Reported(p)) && x.name(p.nameOff) == Looked(p.name)
  {
    assert SameProp(x, f, p.pos) && SameName(x, f, p.nameOff);
    PropRoundTrip(f.block, p);
    GetStringIff(f, p.nameOff, if p.name.Some? then p.name.value else []);
  }

  lemma {:induction false} LexNoProp(x: Lexer, f: Fdt, pos: nat, n: nat, k: Byte)
    requires Lexes(x, f) && TokenAfter(f.block, pos, n, k) && k != 4 && k != 3
    ensures x.prop(pos) == None
  {
    assert SameProp(x, f, pos);
    NotProp(f.block, pos, n, k);
  }

  lemma {:induction false} LexHead(x: Lexer, f: Fdt, i: Item)
    requires Lexes(x, f) && HoldsHead(f.block, i.pos, i.nops, i.name, i.next)
    ensures x.head(i.pos) == Some(Head(i.name, i.next))
  {
    assert SameHead(x, f, i.pos);
    HeadRoundTrip(f.block, i.pos, i.nops, i.name, i.next);
  }

  lemma {:induction false} LexEnd(x: Lexer, f: Fdt, pos: nat, n: nat)
    requires Lexes(x, f) && TokenAfter(f.block, pos, n, 2)
    ensures x.head(pos) == None && x.end(pos) == Some(pos + 4 * n + 4)
  {
    assert SameHead(x, f, pos) && SameEnd(x, f, pos);
    NotHead(f.block, pos, n, 2);
    EndRoundTrip(f.block, pos, n);
  }

  lemma {:induction false} LexProps(x: Lexer, f: Fdt, pos: nat, s: List<Prop>, end: nat, n: nat, k: Byte)
    requires Lexes(x, f) && HoldsProps(f, pos, s, end) && TokenAfter(f.block, end, n, k) && k != 4 && k != 3
    ensures PropsAt(x, pos, s, end)
    decreases s
  {
    match s
    case Nil => LexNoProp(x, f, pos, n, k);
    case Cons(p, rest) =>
      LexProp(x, f, p);
      LexProps(x, f, p.end, rest, end, n, k);
  }

  /** After the properties of a node comes the begin token of its first child or its own end token. */
  lemma {:induction false} AfterProps(f: Fdt, pos: nat, s: List<Item>, end: nat, n: nat) returns (m: nat, k: Byte)
    requires HoldsItems(f, pos, s, end) && TokenAfter(f.block, end, n, 2)
    ensures TokenAfter(f.block, pos, m, k) && k != 4 && k != 3
  {
    match s
    case Nil => m, k := n, 2;
    case Cons(i, _) => m, k := i.nops, 1;
  }

  lemma {:induction false} LexPropsOf(x: Lexer, f: Fdt, i: Item)
    requires Lexes(x, f) && HoldsProps(f, i.next, i.props, i.start) && HoldsItems(f, i.start, i.children, i.stop)
    requires TokenAfter(f.block, i.stop, i.endNops, 2)
    ensures PropsAt(x, i.next, i.props, i.start)
  {
    var n, k := AfterProps(f, i.start, i.children, i.stop, i.endNops);
    LexProps(x, f, i.next, i.props, i.start, n, k);
  }

  /** Wherever the bytes of a node lie, the lexer sees it. */
  lemma {:induction false} LexItem(x: Lexer, f: Fdt, i: Item)
    requires Lexes(x, f) && HoldsItem(f, i)
    ensures ItemAt(x, i)
    decreases i
  {
    LexHead(x, f, i);
    LexPropsOf(x, f, i);
    LexItems(x, f, i.start, i.children, i.stop, i.endNops);
    LexEnd(x, f, i.stop, i.endNops);
  }

  lemma {:induction false} LexItems(x: Lexer, f: Fdt, pos: nat, s: List<Item>, end: nat, n: nat)
    requires Lexes(x, f) && HoldsItems(f, pos, s, end) && TokenAfter(f.block, end, n, 2)
    ensures ItemsAt(x, pos, s, end)
    decreases s
  {
    match s
    case Nil => LexEnd(x, f, pos, n);
    case Cons(i, rest) =>
      LexItem(x, f, i);
      LexItems(x, f, i.end, rest, end, n);
  }

  lemma {:induction false} PropsRead(x: Lexer, pos: nat, s: List<Prop>, end: nat)
    requires Moves(x) && PropsAt(x, pos, s, end)
    ensures pos <= end && PropsSpan(x, pos) == Some(end - pos) && SeenProps(x, pos) == MeantProps(s)
    decreases s
  {
    match s
    case Nil =>
    case Cons(p, rest) => PropsRead(x, p.end, rest, end);
  }

  /** The iterator over the children of `i`, and the node that `i` is read as. */
  function KidsOf(off: nat, i: Item): NodeIter
    requires i.pos <= i.start
  {
    NodeIter(i.start, off + (i.start - i.pos), off)
  }

  function NodeOf(off: nat, parentOff: Option<nat>, i: Item): Node
    requires i.pos <= i.start && i.pos <= i.end
  {
    Node(off, i.end - i.pos, i.name, i.next, KidsOf(off, i), parentOff)
  }

  lemma {:induction false} ResultIs(x: Lexer, off: nat, parentOff: Option<nat>, i: Item)
    requires Moves(x) && i.pos < i.start <= i.stop && x.end(i.stop) == Some(i.end)
    ensures i.start < i.end
    ensures NodeResult(x, off, parentOff, i.pos, Head(i.name, i.next), KidsOf(off, i), Some(i.stop - i.start))
         == Got(Parsed(i.end, NodeOf(off, parentOff, i)))
  {
  }

  lemma {:induction false} ParseNodeIs(x: Lexer, off: nat, parentOff: Option<nat>, i: Item)
    requires Moves(x) && x.head(i.pos) == Some(Head(i.name, i.next)) && i.next <= i.start
    requires PropsSpan(x, i.next) == Some(i.start - i.next) && i.pos < i.start <= i.stop
    requires ChildrenSpan(x, KidsOf(off, i)) == Some(i.stop - i.start) && x.end(i.stop) == Some(i.end)
    ensures i.start < i.end
    ensures ParseNode(x, off, parentOff, i.pos) == Got(Parsed(i.end, NodeOf(off, parentOff, i)))
  {
    ResultIs(x, off, parentOff, i);
    NodeTurn(x, off, parentOff, i.pos, Head(i.name, i.next), i.start - i.next, KidsOf(off, i), Some(i.stop - i.start));
  }

  lemma {:induction false} ItemRead(x: Lexer, off: nat, parentOff: Option<nat>, i: Item)
    requires Moves(x) && ItemAt(x, i)
    ensures i.pos < i.start < i.end
    ensures ParseNode(x, off, parentOff, i.pos) == Got(Parsed(i.end, NodeOf(off, parentOff, i)))
    decreases i
  {
    PropsRead(x, i.next, i.props, i.start);
    ItemsRead(x, KidsOf(off, i), i.children, i.stop);
    ParseNodeIs(x, off, parentOff, i);
  }

  lemma {:induction false} ItemsLeft(x: Lexer, left: NodeIter -> Option<nat>, it: NodeIter, s: List<Item>, end: nat)
    requires Moves(x) && SpansLeft(x, left) && ItemsAt(x, it.data, s, end)
    ensures it.data <= end && left(it) == Some(end - it.data)
    decreases s, 0
  {
    LeftTurn(x, left, it, ParseNode(x, it.offset, Some(it.parentOff), it.data));
    match s
    case Nil => NodeStops(x, it.offset, Some(it.parentOff), it.data);
    case Cons(i, rest) =>
      ItemRead(x, it.offset, Some(it.parentOff), i);
      ItemsLeft(x, left, Advance(it, i.end), rest, end);
  }

  lemma {:induction false} ItemsRead(x: Lexer, it: NodeIter, s: List<Item>, end: nat)
    requires Moves(x) && ItemsAt(x, it.data, s, end)
    ensures it.data <= end && ChildrenSpan(x, it) == Some(end - it.data)
    decreases s, 1
  {
    ItemsLeft(x, i => ChildrenSpan(x, i), it, s, end);
  }

  lemma {:induction false} FirstRead(x: Lexer, r: Reader, it: NodeIter, i: Item)
    requires ReadsWith(x, r) && ItemAt(x, i) && it.data == i.pos
    ensures i.pos < i.start < i.end && r.read(it) == Some(Parsed(i.end, NodeOf(it.offset, Some(it.parentOff), i)))
  {
    assert Same(x, r, it);
    ItemRead(x, it.offset, Some(it.parentOff), i);
  }

  lemma {:induction false} NoneRead(x: Lexer, r: Reader, it: NodeIter)
    requires ReadsWith(x, r) && x.head(it.data) == None
    ensures r.read(it) == None
  {
    assert Same(x, r, it);
    NodeStops(x, it.offset, Some(it.parentOff), it.data);
  }

  lemma {:induction false} ItemSeen(x: Lexer, r: Reader, off: nat, parentOff: Option<nat>, i: Item)
    requires ReadsWith(x, r) && ItemAt(x, i) && i.pos <= i.start && i.pos <= i.end
    ensures Seen(x, r, NodeOf(off, parentOff, i)) == Meant(i)
    decreases i
  {
    PropsRead(x, i.next, i.props, i.start);
    ItemsSeen(x, r, KidsOf(off, i), i.children, i.stop);
  }

  lemma {:induction false} ItemsSeen(x: Lexer, r: Reader, it: NodeIter, s: List<Item>, end: nat)
    requires ReadsWith(x, r) && ItemsAt(x, it.data, s, end)
    ensures SeenAll(x, r, it) == MeantAll(s)
    decreases s
  {
    match s
    case Nil => NoneRead(x, r, it);
    case Cons(i, rest) =>
      FirstRead(x, r, it, i);
      ItemSeen(x, r, it.offset, Some(it.parentOff), i);
      ItemsSeen(x, r, Advance(it, i.end), rest, end);
  }

  /** Parsing a node gives back the tree laid out, whatever follows, and its span is the bytes consumed. */
  lemma {:induction false} LayoutRoundTrip(x: Lexer, r: Reader, f: Fdt, off: nat, parentOff: Option<nat>, i: Item)
    requires ReadsWith(x, r) && Lexes(x, f) && HoldsItem(f, i)
    ensures i.pos < i.start < i.end
    ensures ParseNode(x, off, parentOff, i.pos) == Got(Parsed(i.end, NodeOf(off, parentOff, i)))
    ensures Seen(x, r, NodeOf(off, parentOff, i)) == Meant(i)
  {
    LexItem(x, f, i);
    ItemRead(x, off, parentOff, i);
    ItemSeen(x, r, off, parentOff, i);
  }

  // ---------- what is parsed is laid out ----------

  lemma {:induction false} ResultParts(x: Lexer, off: nat, parentOff: Option<nat>, pos: nat, head: Head,
      kids: NodeIter, all: Option<nat>, p: Parsed) returns (below: nat)
    requires Moves(x) && pos <= kids.data && NodeResult(x, off, parentOff, pos, head, kids, all) == Got(p)
    ensures all == Some(below) && x.end(kids.data + below) == Some(p.rest)
    ensures p.node == Node(off, p.rest - pos, head.name, head.next, kids, parentOff)
  {
    below := all.value;
  }

  /** The parts of a node that parsing put together. */
  lemma {:induction false} NodeParts(x: Lexer, off: nat, parentOff: Option<nat>, pos: nat, p: Parsed)
    returns (head: Head, props: nat, kids: NodeIter, below: nat)
    requires Moves(x) && ParseNode(x, off, parentOff, pos) == Got(p)
    ensures x.head(pos) == Some(head) && PropsSpan(x, head.next) == Some(props)
    ensures kids == NodeIter(head.next + props, off + (head.next + props - pos), off)
    ensures ChildrenSpan(x, kids) == Some(below) && x.end(kids.data + below) == Some(p.rest)
    ensures p.node == Node(off, p.rest - pos, head.name, head.next, kids, parentOff)
  {
    head, props := HeadParts(x, off, parentOff, pos);
    kids := NodeIter(head.next + props, off + (head.next + props - pos), off);
    var all := ChildrenSpan(x, kids);
    NodeTurn(x, off, parentOff, pos, head, props, kids, all);
    below := ResultParts(x, off, parentOff, pos, head, kids, all, p);
  }

  lemma {:induction false} HeadParts(x: Lexer, off: nat, parentOff: Option<nat>, pos: nat)
    returns (head: Head, props: nat)
    requires Moves(x) && ParseNode(x, off, parentOff, pos).Got?
    ensures x.head(pos) == Some(head) && PropsSpan(x, head.next) == Some(props)
  {
    head := x.head(pos).value;
    props := PropsSpan(x, head.next).value;
  }

  lemma {:induction false} MakeItem(f: Fdt, i: Item)
    requires HoldsHead(f.block, i.pos, i.nops, i.name, i.next) && HoldsProps(f, i.next, i.props, i.start)
    requires HoldsItems(f, i.start, i.children, i.stop)
    requires TokenAfter(f.block, i.stop, i.endNops, 2) && i.end == i.stop + 4 * i.endNops + 4
    ensures HoldsItem(f, i)
  {
  }

  ghost predicate Reads(x: Lexer, f: Fdt) { Moves(x) && Lexes(x, f) && x.size == |f.block| }

  /** Some layout of properties, of nodes, of one node, fills the bytes; the node is read as `p`. */
  ghost predicate PropsLaid(f: Fdt, pos: nat, end: nat) { exists s :: HoldsProps(f, pos, s, end) }

  ghost predicate ItemsLaid(f: Fdt, pos: nat, end: nat) { exists s :: HoldsItems(f, pos, s, end) }

  ghost predicate ItemLaid(f: Fdt, off: nat, parentOff: Option<nat>, pos: nat, p: Parsed) {
    exists i :: HoldsItem(f, i) && i.pos == pos < i.start < i.end && p == Parsed(i.end, NodeOf(off, parentOff, i))
  }

  ghost predicate HeadLaid(f: Fdt, pos: nat, head: Head) {
    exists n: nat :: HoldsHead(f.block, pos, n, head.name, head.next)
  }

  ghost predicate EndLaid(f: Fdt, pos: nat, end: nat) {
    exists n: nat :: TokenAfter(f.block, pos, n, 2) && end == pos + 4 * n + 4
  }

  lemma {:induction false} PropertyHolds(x: Lexer, f: Fdt, pos: nat, p: ParsedProperty) returns (h: Prop)
    requires Reads(x, f) && ParseProperty(x, pos) == Got(p)
    ensures HoldsProp(f.block, h) && NameAt(f, h.nameOff, h.name) && h.pos == pos && h.end == p.rest
  {
    assert SameProp(x, f, pos);
    var r := x.prop(pos).value;
    assert SameName(x, f, r.nameOff);
    GetStringIff(f, r.nameOff, if p.prop.name.Some? then p.prop.name.value else []);
    h := PropHolds(f.block, pos, r, p.prop.name);
  }

  /** `laid` tells whether properties, or nodes, fill the bytes. */
  ghost predicate PropsLaidAs(f: Fdt, laid: (nat, nat) -> bool) {
    forall a, b {:trigger PropsLaid(f, a, b)} :: laid(a, b) == PropsLaid(f, a, b)
  }

  ghost predicate ItemsLaidAs(f: Fdt, laid: (nat, nat) -> bool) {
    forall a, b {:trigger ItemsLaid(f, a, b)} :: laid(a, b) == ItemsLaid(f, a, b)
  }

  lemma {:induction false} NoneLaid(f: Fdt, laid: (nat, nat) -> bool, pos: nat)
    requires PropsLaidAs(f, laid) || ItemsLaidAs(f, laid)
    ensures laid(pos, pos)
  {
    assert HoldsProps(f, pos, Nil, pos) && HoldsItems(f, pos, Nil, pos);
    assert PropsLaid(f, pos, pos) && ItemsLaid(f, pos, pos);
  }

  lemma {:induction false} OnePropLaid(f: Fdt, laid: (nat, nat) -> bool, p: Prop, end: nat)
    requires HoldsProp(f.block, p) && NameAt(f, p.nameOff, p.name) && PropsLaidAs(f, laid) && laid(p.end, end)
    ensures laid(p.pos, end)
  {
    assert PropsLaid(f, p.end, end);
    var s :| HoldsProps(f, p.end, s, end);
    assert HoldsProps(f, p.pos, Cons(p, s), end);
    assert PropsLaid(f, p.pos, end);
  }

  lemma {:induction false} OneProp(x: Lexer, f: Fdt, laid: (nat, nat) -> bool, left: nat -> Option<nat>, pos: nat)
    returns (r: Attempt<ParsedProperty>)
    requires Reads(x, f) && PropsLaidAs(f, laid) && PropsLeft(x, left)
    ensures r.Got? ==> pos < r.value.rest <= x.size && forall end {:trigger laid(pos, end)} ::
              laid(r.value.rest, end) ==> laid(pos, end)
    ensures left(pos) == if r.Failed? then Some(0) else if r.Panicked? then None
                         else Plus(r.value.rest - pos, left(r.value.rest))
  {
    r := ParseProperty(x, pos);
    PropsTurn(x, left, pos, r);
    if r.Got? {
      var p := PropertyHolds(x, f, pos, r.value);
      forall end {:trigger laid(pos, end)} | laid(r.value.rest, end)
        ensures laid(pos, end)
      {
        OnePropLaid(f, laid, p, end);
      }
    }
  }

  lemma {:induction false} PropsHold(x: Lexer, f: Fdt, laid: (nat, nat) -> bool, left: nat -> Option<nat>, pos: nat,
      span: nat)
    requires Reads(x, f) && PropsLaidAs(f, laid) && PropsLeft(x, left) && left(pos) == Some(span)
    ensures laid(pos, pos + span)
    decreases x.size - pos
  {
    var r := OneProp(x, f, laid, left, pos);
    if r.Got? {
      PropsHold(x, f, laid, left, r.value.rest, span - (r.value.rest - pos));
    } else {
      NoneLaid(f, laid, pos);
    }
  }

  lemma {:induction false} LexedHead(x: Lexer, f: Fdt, pos: nat, head: Head)
    requires Reads(x, f) && x.head(pos) == Some(head)
    ensures HeadLaid(f, pos, head) && pos < head.next
  {
    assert SameHead(x, f, pos);
    var n := HeadHolds(f.block, pos, head);
  }

  lemma {:induction false} LexedEnd(x: Lexer, f: Fdt, pos: nat, end: nat)
    requires Reads(x, f) && x.end(pos) == Some(end)
    ensures EndLaid(f, pos, end)
  {
    assert SameEnd(x, f, pos);
    var n := EndHolds(f.block, pos, end);
  }

  lemma {:induction false} PartsLaid(f: Fdt, off: nat, parentOff: Option<nat>, pos: nat, head: Head, kids: NodeIter,
      stop: nat, p: Parsed)
    requires FrameLaid(f, pos, head, kids.data, stop, p.rest) && kids.data <= stop && ItemsLaid(f, kids.data, stop)
    requires kids == NodeIter(kids.data, off + (kids.data - pos), off)
    requires pos <= p.rest && p.node == Node(off, p.rest - pos, head.name, head.next, kids, parentOff)
    ensures ItemLaid(f, off, parentOff, pos, p)
  {
    var nops: nat :| HoldsHead(f.block, pos, nops, head.name, head.next);
    var props :| HoldsProps(f, head.next, props, kids.data);
    var children :| HoldsItems(f, kids.data, children, stop);
    var n: nat :| TokenAfter(f.block, stop, n, 2) && p.rest == stop + 4 * n + 4;
    var i := Item(pos, nops, head.name, head.next, props, kids.data, children, stop, n, p.rest);
    MakeItem(f, i);
  }

  /** What comes before the children of a node, and after them. */
  ghost predicate FrameLaid(f: Fdt, pos: nat, head: Head, start: nat, stop: nat, end: nat) {
    && HeadLaid(f, pos, head) && pos < head.next <= start && PropsLaid(f, head.next, start)
    && EndLaid(f, stop, end)
  }

  lemma {:induction false} FrameHolds(x: Lexer, f: Fdt, pos: nat, head: Head, span: nat, stop: nat, end: nat)
    requires Reads(x, f) && x.head(pos) == Some(head) && PropsSpan(x, head.next) == Some(span)
    requires x.end(stop) == Some(end)
    ensures FrameLaid(f, pos, head, head.next + span, stop, end)
  {
    LexedHead(x, f, pos, head);
    PropsHold(x, f, (a: nat, b: nat) => PropsLaid(f, a, b), at => PropsSpan(x, at), head.next, span);
    LexedEnd(x, f, stop, end);
  }

  lemma {:induction false} PartsJoin(x: Lexer, f: Fdt, off: nat, parentOff: Option<nat>, pos: nat, head: Head,
      span: nat, kids: NodeIter, stop: nat, p: Parsed)
    requires Reads(x, f) && x.head(pos) == Some(head) && PropsSpan(x, head.next) == Some(span)
    requires kids.data == head.next + span <= stop && x.end(stop) == Some(p.rest) && ItemsLaid(f, kids.data, stop)
    requires pos <= kids.data && kids == NodeIter(kids.data, off + (kids.data - pos), off)
    requires pos <= p.rest && p.node == Node(off, p.rest - pos, head.name, head.next, kids, parentOff)
    ensures ItemLaid(f, off, parentOff, pos, p)
  {
    FrameHolds(x, f, pos, head, span, stop, p.rest);
    PartsLaid(f, off, parentOff, pos, head, kids, stop, p);
  }

  /** Whatever is parsed as a node is laid out there as one. */
  lemma {:induction false} NodeHolds(x: Lexer, f: Fdt, off: nat, parentOff: Option<nat>, pos: nat, p: Parsed)
    requires Reads(x, f) && ParseNode(x, off, parentOff, pos) == Got(p)
    ensures ItemLaid(f, off, parentOff, pos, p)
    decreases x.size - pos, 0
  {
    var head, span, kids, below := NodeParts(x, off, parentOff, pos, p);
    ChildrenHold(x, f, kids, below);
    PartsJoin(x, f, off, parentOff, pos, head, span, kids, kids.data + below, p);
  }

  lemma {:induction false} ChildrenHold(x: Lexer, f: Fdt, it: NodeIter, span: nat)
    requires Reads(x, f) && ChildrenSpan(x, it) == Some(span)
    ensures ItemsLaid(f, it.data, it.data + span)
    decreases x.size - it.data, 3
  {
    NodesHold(x, f, (a: nat, b: nat) => ItemsLaid(f, a, b), it => ChildrenSpan(x, it), it, span);
  }

  lemma {:induction false} OneItemLaid(f: Fdt, laid: (nat, nat) -> bool, off: nat, parentOff: Option<nat>, pos: nat,
      p: Parsed, end: nat)
    requires ItemsLaidAs(f, laid) && ItemLaid(f, off, parentOff, pos, p) && laid(p.rest, end)
    ensures laid(pos, end)
  {
    assert ItemsLaid(f, p.rest, end);
    var i :| HoldsItem(f, i) && i.pos == pos < i.start < i.end && p == Parsed(i.end, NodeOf(off, parentOff, i));
    var s :| HoldsItems(f, p.rest, s, end);
    assert HoldsItems(f, pos, Cons(i, s), end);
    assert ItemsLaid(f, pos, end);
  }

  lemma {:induction false} OneNode(x: Lexer, f: Fdt, laid: (nat, nat) -> bool, left: NodeIter -> Option<nat>,
      it: NodeIter) returns (r: Attempt<Parsed>)
    requires Reads(x, f) && ItemsLaidAs(f, laid) && SpansLeft(x, left)
    ensures r.Got? ==> it.data < r.value.rest <= x.size && forall end {:trigger laid(it.data, end)} ::
              laid(r.value.rest, end) ==> laid(it.data, end)
    ensures left(it) == if r.Failed? then Some(0) else if r.Panicked? then None
                        else Plus(r.value.rest - it.data, left(Advance(it, r.value.rest)))
    decreases x.size - it.data, 1
  {
    r := ParseNode(x, it.offset, Some(it.parentOff), it.data);
    LeftTurn(x, left, it, r);
    if r.Got? {
      NodeHolds(x, f, it.offset, Some(it.parentOff), it.data, r.value);
      forall end {:trigger laid(it.data, end)} | laid(r.value.rest, end)
        ensures laid(it.data, end)
      {
        OneItemLaid(f, laid, it.offset, Some(it.parentOff), it.data, r.value, end);
      }
    }
  }

  lemma {:induction false} NodesHold(x: Lexer, f: Fdt, laid: (nat, nat) -> bool, left: NodeIter -> Option<nat>,
      it: NodeIter, span: nat)
    requires Reads(x, f) && ItemsLaidAs(f, laid) && SpansLeft(x, left) && left(it) == Some(span)
    ensures laid(it.data, it.data + span)
    decreases x.size - it.data, 2
  {
    var r := OneNode(x, f, laid, left, it);
    if r.Got? {
      NodesHold(x, f, laid, left, Advance(it, r.value.rest), span - (r.value.rest - it.data));
    } else {
      NoneLaid(f, laid, it.data);
    }
  }

  lemma {:induction false} ItemParses(x: Lexer, f: Fdt, off: nat, parentOff: Option<nat>, pos: nat, p: Parsed)
    requires Reads(x, f) && ItemLaid(f, off, parentOff, pos, p)
    ensures ParseNode(x, off, parentOff, pos) == Got(p)
  {
    var i :| HoldsItem(f, i) && i.pos == pos < i.start < i.end && p == Parsed(i.end, NodeOf(off, parentOff, i));
    LexItem(x, f, i);
    ItemRead(x, off, parentOff, i);
  }

  /** On every blob a node is parsed if and only if the bytes are the layout of one, and it is that one. */
  lemma {:induction false} ParsedIff(x: Lexer, f: Fdt, off: nat, parentOff: Option<nat>, pos: nat, p: Parsed)
    requires Reads(x, f)
    ensures ParseNode(x, off, parentOff, pos) == Got(p) <==> ItemLaid(f, off, parentOff, pos, p)
  {
    if ItemLaid(f, off, parentOff, pos, p) {
      ItemParses(x, f, off, parentOff, pos, p);
    } else if ParseNode(x, off, parentOff, pos) == Got(p) {
      NodeHolds(x, f, off, parentOff, pos, p);
    }
  }
}
