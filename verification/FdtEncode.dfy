/** Writing a device tree as a structure block: the bytes are a layout, so parsing gives the tree back. */
module FdtEncode {
  import opened Bytes
  import opened Fdt
  import opened FdtBlob
  import opened FdtRoundTrip
  import opened Wrappers

  /** A property, to be written after `nops` NOP words, with its name at `nameOff` of the strings block. */
  datatype PropSource = PropSource(nops: nat, nameOff: nat, name: seq<Byte>, data: seq<Byte>)

  /** A node, to be written after `nops` NOP words and with `endNops` before its end token. */
  datatype Source = Source(nops: nat, name: seq<Byte>, props: List<PropSource>, children: List<Source>, endNops: nat)

  predicate PropsOk(s: List<PropSource>) {
    match s
    case Nil => true
    case Cons(p, rest) => p.nameOff < 0x1_0000_0000 && |p.data| < 0x1_0000_0000 && PropsOk(rest)
  }

  predicate SourceOk(t: Source) { NoNul(t.name) && Utf8(t.name) && PropsOk(t.props) && SourcesOk(t.children) }

  predicate SourcesOk(s: List<Source>) {
    match s
    case Nil => true
    case Cons(t, rest) => SourceOk(t) && SourcesOk(rest)
  }

  /** The strings block of the blob holds the names of all properties at their offsets. */
  predicate HoldsNames(f: Fdt, s: List<PropSource>) {
    match s
    case Nil => true
    case Cons(p, rest) => HoldsName(f, p.nameOff, p.name) && HoldsNames(f, rest)
  }

  predicate HoldsAllNames(f: Fdt, t: Source) { HoldsNames(f, t.props) && HoldsNamesBelow(f, t.children) }

  predicate HoldsNamesBelow(f: Fdt, s: List<Source>) {
    match s
    case Nil => true
    case Cons(t, rest) => HoldsAllNames(f, t) && HoldsNamesBelow(f, rest)
  }

  /** `n` NOP words and the token `k`. */
  function NopsThen(n: nat, k: Byte): (w: seq<Byte>)
    ensures |w| == 4 * n + 4
  {
    if n == 0 then [0, 0, 0, k] else [0, 0, 0, 4] + NopsThen(n - 1, k)
  }

  function EncodeProp(p: PropSource): (w: seq<Byte>)
    requires p.nameOff < 0x1_0000_0000 && |p.data| < 0x1_0000_0000
    ensures |w| == 4 * p.nops + 12 + Pad4(|p.data|)
  {
    NopsThen(p.nops, 3) + (Be32(|p.data|) + (Be32(p.nameOff) + Padded(p.data)))
  }

  function EncodeProps(s: List<PropSource>): seq<Byte>
    requires PropsOk(s)
  {
    match s
    case Nil => []
    case Cons(p, rest) => EncodeProp(p) + EncodeProps(rest)
  }

  function EncodeHead(t: Source): (w: seq<Byte>)
    ensures |w| == 4 * t.nops + 4 + Pad4(|t.name| + 1)
  {
    NopsThen(t.nops, 1) + Padded(t.name + [0])
  }

  function Encode(t: Source): (w: seq<Byte>)
    requires SourceOk(t)
  {
    EncodeHead(t) + (EncodeProps(t.props) + (EncodeAll(t.children) + NopsThen(t.endNops, 2)))
  }

  function EncodeAll(s: List<Source>): seq<Byte>
    requires SourcesOk(s)
  {
    match s
    case Nil => []
    case Cons(t, rest) => Encode(t) + EncodeAll(rest)
  }

  /** The tree a source stands for. */
  function TreeOf(t: Source): View {
    View(t.name, PropsOf(t.props), TreesOf(t.children))
  }

  function PropsOf(s: List<PropSource>): List<(Option<seq<Byte>>, seq<Byte>)> {
    match s
    case Nil => Nil
    case Cons(p, rest) => Cons((Some(p.name), p.data), PropsOf(rest))
  }

  function TreesOf(s: List<Source>): List<View> {
    match s
    case Nil => Nil
    case Cons(t, rest) => Cons(TreeOf(t), TreesOf(rest))
  }

  lemma {:induction false} TokenWritten(b: seq<Byte>, pos: nat, n: nat, k: Byte)
    requires At(b, pos, NopsThen(n, k))
    ensures TokenAfter(b, pos, n, k)
    decreases n
  {
    if n > 0 {
      AtSplit(b, pos, [0, 0, 0, 4], NopsThen(n - 1, k));
      TokenWritten(b, pos + 4, n - 1, k);
    }
  }

  lemma {:induction false} CutThree(b: seq<Byte>, pos: nat, u: seq<Byte>, v: seq<Byte>, w: seq<Byte>, z: seq<Byte>)
    requires At(b, pos, u + (v + (w + z)))
    ensures At(b, pos, u) && At(b, pos + |u|, v) && At(b, pos + |u| + |v|, w) && At(b, pos + |u| + |v| + |w|, z)
  {
    AtSplit(b, pos, u, v + (w + z));
    AtSplit(b, pos + |u|, v, w + z);
    AtSplit(b, pos + |u| + |v|, w, z);
  }

  lemma {:induction false} PropCut(b: seq<Byte>, pos: nat, p: PropSource, q: nat)
    requires p.nameOff < 0x1_0000_0000 && |p.data| < 0x1_0000_0000 && At(b, pos, EncodeProp(p)) && q == pos + 4 * p.nops
    ensures At(b, pos, NopsThen(p.nops, 3)) && At(b, q + 12, Padded(p.data))
    ensures Be32At(b, q + 4) == |p.data| && Be32At(b, q + 8) == p.nameOff
  {
    CutThree(b, pos, NopsThen(p.nops, 3), Be32(|p.data|), Be32(p.nameOff), Padded(p.data));
    Be32RoundTrip(b, q + 4, |p.data|);
    Be32RoundTrip(b, q + 8, p.nameOff);
  }

  lemma {:induction false} PropWritten(b: seq<Byte>, pos: nat, p: PropSource, end: nat)
    requires p.nameOff < 0x1_0000_0000 && |p.data| < 0x1_0000_0000 && At(b, pos, EncodeProp(p))
    requires end == pos + |EncodeProp(p)|
    ensures HoldsProp(b, Prop(pos, end, p.nops, p.nameOff, Some(p.name), p.data))
  {
    var q := pos + 4 * p.nops;
    PropCut(b, pos, p, q);
    TokenWritten(b, pos, p.nops, 3);
    PaddedAt(b, q + 12, p.data);
    PropFrom(b, Prop(pos, end, p.nops, p.nameOff, Some(p.name), p.data), q);
  }

  lemma {:induction false} PropFrom(b: seq<Byte>, p: Prop, q: nat)
    requires q == p.pos + 4 * p.nops && TokenAfter(b, p.pos, p.nops, 3) && p.end == q + 12 + Pad4(|p.data|) <= |b|
    requires Be32At(b, q + 4) == |p.data| && Be32At(b, q + 8) == p.nameOff && b[q + 12..q + 12 + |p.data|] == p.data
    ensures HoldsProp(b, p)
  {
  }

  /** The bytes of the properties, wherever they lie, are a layout of them. */
  lemma {:induction false} PropsWritten(f: Fdt, pos: nat, s: List<PropSource>, end: nat) returns (ps: List<Prop>)
    requires PropsOk(s) && HoldsNames(f, s) && At(f.block, pos, EncodeProps(s)) && end == pos + |EncodeProps(s)|
    ensures HoldsProps(f, pos, ps, end) && MeantProps(ps) == PropsOf(s)
    decreases s
  {
    match s
    case Nil => ps := Nil;
    case Cons(p, rest) =>
      var mid := pos + |EncodeProp(p)|;
      AtSplit(f.block, pos, EncodeProp(p), EncodeProps(rest));
      PropWritten(f.block, pos, p, mid);
      var others := PropsWritten(f, mid, rest, end);
      ps := Cons(Prop(pos, mid, p.nops, p.nameOff, Some(p.name), p.data), others);
  }

  lemma {:induction false} NameWritten(b: seq<Byte>, at: nat, name: seq<Byte>)
    requires At(b, at, Padded(name + [0]))
    ensures at + Pad4(|name| + 1) <= |b| && b[at..at + |name|] == name && b[at + |name|] == 0
  {
    PaddedAt(b, at, name + [0]);
    AtSplit(b, at, name, [0]);
    AtIndex(b, at + |name|, [0], 0);
  }

  lemma {:induction false} HeadWritten(b: seq<Byte>, pos: nat, t: Source, next: nat)
    requires NoNul(t.name) && Utf8(t.name) && At(b, pos, EncodeHead(t)) && next == pos + |EncodeHead(t)|
    ensures HoldsHead(b, pos, t.nops, t.name, next)
  {
    AtSplit(b, pos, NopsThen(t.nops, 1), Padded(t.name + [0]));
    NameWritten(b, pos + 4 * t.nops + 4, t.name);
    TokenWritten(b, pos, t.nops, 1);
  }

  /** The parts of a written node lie one after the other. */
  lemma {:induction false} EncodeCut(b: seq<Byte>, pos: nat, t: Source) returns (next: nat, start: nat, stop: nat)
    requires SourceOk(t) && At(b, pos, Encode(t))
    ensures next == pos + |EncodeHead(t)| && start == next + |EncodeProps(t.props)|
    ensures stop == start + |EncodeAll(t.children)|
    ensures At(b, pos, EncodeHead(t)) && At(b, next, EncodeProps(t.props)) && At(b, start, EncodeAll(t.children))
    ensures At(b, stop, NopsThen(t.endNops, 2)) && pos + |Encode(t)| == stop + 4 * t.endNops + 4
  {
    next, start, stop := CutParts(b, pos, Encode(t), EncodeHead(t), EncodeProps(t.props), EncodeAll(t.children),
      NopsThen(t.endNops, 2));
  }

  lemma {:induction false} CutParts(b: seq<Byte>, pos: nat, all: seq<Byte>, u: seq<Byte>, v: seq<Byte>, w: seq<Byte>,
      z: seq<Byte>) returns (next: nat, start: nat, stop: nat)
    requires At(b, pos, all) && all == u + (v + (w + z))
    ensures next == pos + |u| && start == next + |v| && stop == start + |w| && pos + |all| == stop + |z|
    ensures At(b, pos, u) && At(b, next, v) && At(b, start, w) && At(b, stop, z)
  {
    next, start, stop := pos + |u|, pos + |u| + |v|, pos + |u| + |v| + |w|;
    CutThree(b, pos, u, v, w, z);
  }

  /** The bytes of a source, wherever they lie in a block, are a layout of its tree. */
  lemma {:induction false} Written(f: Fdt, pos: nat, t: Source, end: nat) returns (i: Item)
    requires SourceOk(t) && HoldsAllNames(f, t) && At(f.block, pos, Encode(t)) && end == pos + |Encode(t)|
    ensures HoldsItem(f, i) && i.pos == pos && i.end == end && Meant(i) == TreeOf(t)
    decreases t
  {
    var next, start, stop := EncodeCut(f.block, pos, t);
    var props := PropsWritten(f, next, t.props, start);
    var children := AllWritten(f, start, t.children, stop);
    TokenWritten(f.block, stop, t.endNops, 2);
    i := Item(pos, t.nops, t.name, next, props, start, children, stop, t.endNops, end);
    HeadWritten(f.block, pos, t, next);
    MakeItem(f, i);
  }

  lemma {:induction false} AllWritten(f: Fdt, pos: nat, s: List<Source>, end: nat) returns (items: List<Item>)
    requires SourcesOk(s) && HoldsNamesBelow(f, s) && At(f.block, pos, EncodeAll(s)) && end == pos + |EncodeAll(s)|
    ensures HoldsItems(f, pos, items, end) && MeantAll(items) == TreesOf(s)
    decreases s
  {
    match s
    case Nil => items := Nil;
    case Cons(t, rest) =>
      var mid := pos + |Encode(t)|;
      AtSplit(f.block, pos, Encode(t), EncodeAll(rest));
      var first := Written(f, pos, t, mid);
      var others := AllWritten(f, mid, rest, end);
      items := Cons(first, others);
  }

  /** Device-tree round trip: parsing an encoded tree, with NOP words between any tokens and anything
      behind it, in a blob whose strings block holds the property names, consumes exactly its bytes, reports
      them as the node's span, and shows the same names, properties and children in order. */
  lemma {:induction false} RoundTrip(f: Fdt, off: nat, parentOff: Option<nat>, pos: nat, t: Source)
    requires SourceOk(t) && HoldsAllNames(f, t) && At(f.block, pos, Encode(t))
    ensures var p := ParseNode(LexerOf(f), off, parentOff, pos);
      && p.Got? && p.value.rest == pos + |Encode(t)| && p.value.node.span == |Encode(t)|
      && Seen(LexerOf(f), ReaderOf(f), p.value.node) == TreeOf(t)
  {
    BlobReads(f);
    LexerLexes(f);
    var i := Written(f, pos, t, pos + |Encode(t)|);
    LayoutRoundTrip(LexerOf(f), ReaderOf(f), f, off, parentOff, i);
  }

  /** So a structure block that starts with an encoded tree has that tree at its root. */
  lemma {:induction false} RootRoundTrip(f: Fdt, t: Source)
    requires SourceOk(t) && HoldsAllNames(f, t) && At(f.block, 0, Encode(t))
    ensures var r := ParseRoot(f);
      && r.Got? && r.value.off == 0 && r.value.parentOff == None && r.value.span == |Encode(t)|
      && Seen(LexerOf(f), ReaderOf(f), r.value) == TreeOf(t)
  {
    RoundTrip(f, 0, None, 0, t);
  }

  /** `root_node` succeeds exactly where the structure block starts with the layout of a node. */
  lemma {:induction false} RootIff(f: Fdt, n: Node)
    ensures ParseRoot(f) == Got(n) <==> exists rest: nat :: ItemLaid(f, 0, None, 0, Parsed(rest, n))
  {
    LexerLexes(f);
    var r := ParseNode(LexerOf(f), 0, None, 0);
    if ParseRoot(f) == Got(n) {
      ParsedIff(LexerOf(f), f, 0, None, 0, r.value);
    }
    forall rest: nat | ItemLaid(f, 0, None, 0, Parsed(rest, n))
      ensures r == Got(Parsed(rest, n))
    {
      ParsedIff(LexerOf(f), f, 0, None, 0, Parsed(rest, n));
    }
  }
}
