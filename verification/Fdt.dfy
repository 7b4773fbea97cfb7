/** The flattened device tree parser: nodes and properties read from a structure block. */
module Fdt {
  import opened Bytes
  import opened Wrappers

  /** A blob: the structure block, the whole data, and where its strings block starts. */
  datatype Fdt = Fdt(block: seq<Byte>, data: seq<Byte>, offStrings: nat)

  /** What a parse yields: a value, an error, or a panic. */
  datatype Attempt<+T> = Failed | Panicked | Got(value: T) {
    function ToOption(): Option<T> { if Got? then Some(value) else None }
  }

  datatype Name = Found(name: seq<Byte>) | Missing | Panic

  /** A property; None is a name that runs to the end of the blob. */
  datatype Property = Property(span: nat, name: Option<seq<Byte>>, data: seq<Byte>)

  datatype ParsedProperty = ParsedProperty(rest: nat, prop: Property)

  /** The bytes of a property, with the offset of its name. */
  datatype RawProperty = RawProperty(rest: nat, span: nat, nameOff: nat, data: seq<Byte>)

  /** Iterates the nodes from position `data` on, taken to lie at offset `offset`. */
  datatype NodeIter = NodeIter(data: nat, offset: nat, parentOff: nat)

  /** `props` is the position where the property iterator starts. */
  datatype Node = Node(off: nat, span: nat, name: seq<Byte>, props: nat, children: NodeIter, parentOff: Option<nat>)

  datatype Parsed = Parsed(rest: nat, node: Node)

  const BEGIN_NODE: Byte := 1
  const END_NODE: Byte := 2
  const PROP: Byte := 3
  const NOP: Byte := 4

  predicate Token(b: seq<Byte>, pos: nat, k: Byte) {
    pos + 4 <= |b| && b[pos] == 0 && b[pos + 1] == 0 && b[pos + 2] == 0 && b[pos + 3] == k
  }

  function SkipNops(b: seq<Byte>, pos: nat): (r: nat)
    requires pos <= |b|
    ensures pos <= r <= |b| && !Token(b, r, NOP)
    decreases |b| - pos
  {
    if Token(b, pos, NOP) then SkipNops(b, pos + 4) else pos
  }

  /** The property name at offset `off` of the strings block. */
  function GetString(f: Fdt, off: nat): Name {
    var start := f.offStrings + off;
    if start >= 0x1_0000_0000 || start > |f.data| then Panic
    else
      var e := FindNul(f.data, start);
      if e == |f.data| then Missing
      else if Utf8(f.data[start..e]) then Found(f.data[start..e]) else Panic
  }

  /** The strings block holds the name, with its terminator, at the offset. */
  predicate HoldsName(f: Fdt, off: nat, name: seq<Byte>) {
    NoNul(name) && Utf8(name) && f.offStrings + off < 0x1_0000_0000 && At(f.data, f.offStrings + off, name + [0])
  }

  /** No zero byte follows the offset, which lies in the blob. */
  predicate Unended(f: Fdt, off: nat) {
    f.offStrings + off < 0x1_0000_0000 && f.offStrings + off <= |f.data| && NoNul(f.data[f.offStrings + off..])
  }

  /** A zero-terminated name in the strings block is found under its offset, and nothing else is. */
  lemma {:induction false} GetStringIff(f: Fdt, off: nat, name: seq<Byte>)
    ensures GetString(f, off) == Found(name) <==> HoldsName(f, off, name)
    ensures GetString(f, off) == Missing <==> Unended(f, off)
  {
    var start := f.offStrings + off;
    if HoldsName(f, off, name) {
      FindName(f.data, start, name);
    }
    if start < 0x1_0000_0000 && start <= |f.data| {
      var e := FindNul(f.data, start);
      assert forall i {:trigger f.data[i]} :: start <= i < |f.data| ==> f.data[start..][i - start] == f.data[i];
      if e < |f.data| {
        assert f.data[start..e + 1] == f.data[start..e] + [0];
      }
    }
  }

  function ParseRaw(b: seq<Byte>, pos: nat): (r: Option<RawProperty>)
    requires pos <= |b|
    ensures r.Some? ==> pos + 12 <= r.value.rest <= |b| && r.value.span == r.value.rest - pos
  {
    var p0 := SkipNops(b, pos);
    if !Token(b, p0, PROP) || p0 + 12 > |b| then None
    else
      var len, nameOff, at := Be32At(b, p0 + 4), Be32At(b, p0 + 8), p0 + 12;
      if at + len > |b| then None
      else
        var span := Pad4(at + len - pos);
        if pos + span > |b| then None
        else Some(RawProperty(pos + span, span, nameOff, b[at..at + len]))
  }

  /** The name of a node and where its properties start. */
  datatype Head = Head(name: seq<Byte>, next: nat)

  /** Begin token, zero-terminated name, padding to a multiple of 4 bytes from `pos`. */
  function ParseHead(b: seq<Byte>, pos: nat): (r: Option<Head>)
    requires pos <= |b|
    ensures r.Some? ==> pos < r.value.next <= |b|
  {
    var q := SkipNops(b, pos);
    if !Token(b, q, BEGIN_NODE) then None
    else
      var nul := FindNul(b, q + 4);
      var next := pos + Pad4(nul + 1 - pos);
      if !Utf8(b[q + 4..nul]) || nul == |b| || next > |b| then None else Some(Head(b[q + 4..nul], next))
  }

  /** The position after the end token. */
  function ParseEnd(b: seq<Byte>, pos: nat): (r: Option<nat>)
    requires pos <= |b|
    ensures r.Some? ==> pos + 4 <= r.value <= |b|
  {
    var q := SkipNops(b, pos);
    if Token(b, q, END_NODE) then Some(q + 4) else None
  }

  /** The three parsers that read bytes, each from a position, and the lookup of a name by its offset. */
  datatype Lexer = Lexer(size: nat, head: nat -> Option<Head>, prop: nat -> Option<RawProperty>,
      end: nat -> Option<nat>, name: nat -> Name)

  /** Each of the three moves forward and stays within the block. */
  ghost predicate Moves(x: Lexer) {
    && (forall pos: nat {:trigger x.head(pos)} :: x.head(pos).Some? ==> pos < x.head(pos).value.next <= x.size)
    && (forall pos: nat {:trigger x.prop(pos)} :: x.prop(pos).Some? ==>
          pos < x.prop(pos).value.rest <= x.size && x.prop(pos).value.span == x.prop(pos).value.rest - pos)
    && (forall pos: nat {:trigger x.end(pos)} :: x.end(pos).Some? ==> pos < x.end(pos).value <= x.size)
  }

  function LexerOf(f: Fdt): (x: Lexer)
    ensures Moves(x)
  {
    Lexer(|f.block|,
      (pos: nat) => if pos <= |f.block| then ParseHead(f.block, pos) else None,
      (pos: nat) => if pos <= |f.block| then ParseRaw(f.block, pos) else None,
      (pos: nat) => if pos <= |f.block| then ParseEnd(f.block, pos) else None,
      (off: nat) => GetString(f, off))
  }

  /** The property at `pos`, whose name is looked up at once: that can panic. */
  function ParseProperty(x: Lexer, pos: nat): (r: Attempt<ParsedProperty>)
    requires Moves(x)
    ensures r.Got? ==> pos < r.value.rest <= x.size && r.value.prop.span == r.value.rest - pos
  {
    match x.prop(pos)
    case None => Failed
    case Some(p) =>
      match x.name(p.nameOff)
      case Panic => Panicked
      case Missing => Got(ParsedProperty(p.rest, Property(p.span, None, p.data)))
      case Found(name) => Got(ParsedProperty(p.rest, Property(p.span, Some(name), p.data)))
  }

  /** A sum that a panic ends. */
  function Plus(n: nat, rest: Option<nat>): Option<nat> {
    if rest.None? then None else Some(n + rest.value)
  }

  /** The spans of all properties the iterator yields from `pos` on, added up; None is a panic. */
  function PropsSpan(x: Lexer, pos: nat): (r: Option<nat>)
    requires Moves(x)
    ensures r.Some? ==> pos + r.value <= x.size || r.value == 0
    decreases x.size - pos
  {
    match ParseProperty(x, pos)
    case Failed => Some(0)
    case Panicked => None
    case Got(p) => Plus(p.prop.span, PropsSpan(x, p.rest))
  }

  /** `left` tells the sum of the spans of the properties from a position on. */
  ghost predicate PropsLeft(x: Lexer, left: nat -> Option<nat>)
    requires Moves(x)
  {
    forall pos {:trigger PropsSpan(x, pos)} :: left(pos) == PropsSpan(x, pos)
  }

  lemma {:induction false} PropsTurn(x: Lexer, left: nat -> Option<nat>, pos: nat, r: Attempt<ParsedProperty>)
    requires Moves(x) && PropsLeft(x, left) && r == ParseProperty(x, pos)
    ensures left(pos) == if r.Failed? then Some(0) else if r.Panicked? then None
                         else Plus(r.value.rest - pos, left(r.value.rest))
  {
    assert left(pos) == PropsSpan(x, pos);
    assert r.Got? ==> left(r.value.rest) == PropsSpan(x, r.value.rest);
  }

  /** The properties the iterator yields from `pos` on, up to a panic. */
  function PropList(x: Lexer, pos: nat): seq<Property>
    requires Moves(x)
    decreases x.size - pos
  {
    match ParseProperty(x, pos)
    case Got(p) => [p.prop] + PropList(x, p.rest)
    case _ => []
  }

  /** What parsing a node comes to, once its children are summed up. */
  function NodeResult(x: Lexer, off: nat, parentOff: Option<nat>, pos: nat, head: Head, kids: NodeIter,
      below: Option<nat>): (r: Attempt<Parsed>)
    requires Moves(x) && pos <= kids.data
    ensures r.Got? ==> r.value.node.children == kids && kids.data < r.value.rest <= x.size
    ensures r.Got? ==> r.value.node.span == r.value.rest - pos
    ensures r.Got? ==> r.value.node.off == off && r.value.node.parentOff == parentOff
  {
    if below.None? then Panicked
    else match x.end(kids.data + below.value)
      case None => Failed
      case Some(rest) => Got(Parsed(rest, Node(off, rest - pos, head.name, head.next, kids, parentOff)))
  }

  function ParseNode(x: Lexer, off: nat, parentOff: Option<nat>, pos: nat): (r: Attempt<Parsed>)
    requires Moves(x)
    ensures r.Got? ==> pos < r.value.node.children.data < r.value.rest <= x.size
    ensures r.Got? ==> r.value.node.span == r.value.rest - pos
    ensures r.Got? ==> r.value.node.off == off && r.value.node.parentOff == parentOff
    decreases x.size - pos, 0
  {
    match x.head(pos)
    case None => Failed
    case Some(head) =>
      match PropsSpan(x, head.next)
      case None => Panicked
      case Some(props) =>
        var kids := NodeIter(head.next + props, off + (head.next + props - pos), off);
        NodeResult(x, off, parentOff, pos, head, kids, ChildrenSpan(x, kids))
  }

  /** The spans of all nodes the iterator yields, added up; None is a panic. */
  function ChildrenSpan(x: Lexer, it: NodeIter): (r: Option<nat>)
    requires Moves(x)
    ensures r.Some? ==> it.data + r.value <= x.size || r.value == 0
    decreases x.size - it.data, 1
  {
    match ParseNode(x, it.offset, Some(it.parentOff), it.data)
    case Failed => Some(0)
    case Panicked => None
    case Got(p) => Plus(p.node.span, ChildrenSpan(x, Advance(it, p.rest)))
  }

  function Advance(it: NodeIter, rest: nat): NodeIter
    requires it.data <= rest
  {
    NodeIter(rest, it.offset + (rest - it.data), it.parentOff)
  }

  // ---------- exactly when parsing panics ----------

  /** The bytes that the properties from `pos` on take up, and the offsets of their names. */
  function RawSpan(x: Lexer, pos: nat): (r: nat)
    requires Moves(x)
    ensures pos + r <= x.size || r == 0
    decreases x.size - pos
  {
    match x.prop(pos) case None => 0 case Some(p) => p.span + RawSpan(x, p.rest)
  }

  function PropNames(x: Lexer, pos: nat): seq<nat>
    requires Moves(x)
    decreases x.size - pos
  {
    match x.prop(pos) case None => [] case Some(p) => [p.nameOff] + PropNames(x, p.rest)
  }

  /** Where a node at `pos` ends, if the bytes there are one, names aside. */
  function RawNode(x: Lexer, pos: nat): (r: Option<nat>)
    requires Moves(x)
    ensures r.Some? ==> pos < r.value <= x.size
    decreases x.size - pos, 0
  {
    match x.head(pos)
    case None => None
    case Some(head) =>
      var start := head.next + RawSpan(x, head.next);
      x.end(start + RawNodes(x, start))
  }

  /** The bytes that the nodes from `pos` on take up. */
  function RawNodes(x: Lexer, pos: nat): (r: nat)
    requires Moves(x)
    ensures pos + r <= x.size || r == 0
    decreases x.size - pos, 1
  {
    match RawNode(x, pos) case None => 0 case Some(rest) => rest - pos + RawNodes(x, rest)
  }

  /** The offsets of all property names that are looked up while a node at `pos` is parsed, also if it turns
      out not to be one. */
  function NamesRead(x: Lexer, pos: nat): seq<nat>
    requires Moves(x)
    decreases x.size - pos, 0
  {
    match x.head(pos)
    case None => []
    case Some(head) => PropNames(x, head.next) + AllNamesRead(x, head.next + RawSpan(x, head.next))
  }

  function AllNamesRead(x: Lexer, pos: nat): seq<nat>
    requires Moves(x)
    decreases x.size - pos, 1
  {
    NamesRead(x, pos) + match RawNode(x, pos) case None => [] case Some(rest) => AllNamesRead(x, rest)
  }

  /** None of the lookups panics. */
  predicate Readable(x: Lexer, offs: seq<nat>) {
    forall i {:trigger offs[i]} :: 0 <= i < |offs| ==> x.name(offs[i]) != Panic
  }

  lemma {:induction false} ReadableBoth(x: Lexer, a: seq<nat>, b: seq<nat>)
    ensures Readable(x, a + b) <==> Readable(x, a) && Readable(x, b)
  {
    assert forall i {:trigger a[i]} :: 0 <= i < |a| ==> (a + b)[i] == a[i];
    assert forall i {:trigger b[i]} :: 0 <= i < |b| ==> (a + b)[|a| + i] == b[i];
  }

  lemma {:induction false} PropsPanicIff(x: Lexer, pos: nat)
    requires Moves(x)
    ensures PropsSpan(x, pos) == if Readable(x, PropNames(x, pos)) then Some(RawSpan(x, pos)) else None
    decreases x.size - pos
  {
    if x.prop(pos).Some? {
      var p := x.prop(pos).value;
      ReadableBoth(x, [p.nameOff], PropNames(x, p.rest));
      assert Readable(x, [p.nameOff]) <==> x.name([p.nameOff][0]) != Panic;
      PropsPanicIff(x, p.rest);
    }
  }

  lemma {:induction false} NodeTurn(x: Lexer, off: nat, parentOff: Option<nat>, pos: nat, head: Head, props: nat,
      kids: NodeIter, below: Option<nat>)
    requires Moves(x) && x.head(pos) == Some(head) && PropsSpan(x, head.next) == Some(props)
    requires kids == NodeIter(head.next + props, off + (head.next + props - pos), off) && ChildrenSpan(x, kids) == below
    ensures ParseNode(x, off, parentOff, pos) == NodeResult(x, off, parentOff, pos, head, kids, below)
  {
  }

  lemma {:induction false} NodeStops(x: Lexer, off: nat, parentOff: Option<nat>, pos: nat)
    requires Moves(x) && (x.head(pos).None? || PropsSpan(x, x.head(pos).value.next).None?)
    ensures ParseNode(x, off, parentOff, pos) == if x.head(pos).None? then Failed else Panicked
  {
  }

  lemma {:induction false} RawTurn(x: Lexer, pos: nat, head: Head, start: nat, below: nat)
    requires Moves(x) && x.head(pos) == Some(head) && start == head.next + RawSpan(x, head.next)
    requires RawNodes(x, start) == below
    ensures RawNode(x, pos) == x.end(start + below)
    ensures NamesRead(x, pos) == PropNames(x, head.next) + AllNamesRead(x, start)
  {
  }

  lemma {:induction false} RawStops(x: Lexer, pos: nat)
    requires Moves(x) && x.head(pos).None?
    ensures RawNode(x, pos) == None && NamesRead(x, pos) == []
  {
  }

  /** The attempt panics exactly if not every name is readable, and otherwise succeeds exactly up to `raw`. */
  predicate PanicsUnless(r: Attempt<Parsed>, ok: bool, raw: Option<nat>) {
    if !ok then r.Panicked?
    else if raw.None? then r.Failed?
    else r.Got? && r.value.rest == raw.value
  }

  lemma {:induction false} ResultPanics(x: Lexer, off: nat, parentOff: Option<nat>, pos: nat, head: Head,
      kids: NodeIter, ok: bool, below: nat)
    requires Moves(x) && pos <= kids.data
    ensures PanicsUnless(NodeResult(x, off, parentOff, pos, head, kids, if ok then Some(below) else None), ok,
        x.end(kids.data + below))
  {
  }

  /** On every blob parsing a node panics if and only if the name of a property that it reads cannot be
      looked up; otherwise it succeeds exactly where the bytes are a node, and consumes them. */
  lemma {:induction false} ParsePanicsIff(x: Lexer, off: nat, parentOff: Option<nat>, pos: nat)
    requires Moves(x)
    ensures PanicsUnless(ParseNode(x, off, parentOff, pos), Readable(x, NamesRead(x, pos)), RawNode(x, pos))
    decreases x.size - pos, 0
  {
    if x.head(pos).None? {
      NodeStops(x, off, parentOff, pos);
      RawStops(x, pos);
    } else {
      HeadPanicsIff(x, off, parentOff, pos, x.head(pos).value);
    }
  }

  lemma {:induction false} HeadPanicsIff(x: Lexer, off: nat, parentOff: Option<nat>, pos: nat, head: Head)
    requires Moves(x) && x.head(pos) == Some(head)
    ensures PanicsUnless(ParseNode(x, off, parentOff, pos), Readable(x, NamesRead(x, pos)), RawNode(x, pos))
    decreases x.size - head.next, 3
  {
    var props := RawSpan(x, head.next);
    var kids := NodeIter(head.next + props, off + (head.next + props - pos), off);
    PropsPanicIff(x, head.next);
    ChildrenPanicIff(x, kids);
    PartsPanic(x, off, parentOff, pos, head, props, kids, Readable(x, AllNamesRead(x, kids.data)),
      RawNodes(x, kids.data));
  }

  lemma {:induction false} PartsPanic(x: Lexer, off: nat, parentOff: Option<nat>, pos: nat, head: Head, props: nat,
      kids: NodeIter, ok: bool, below: nat)
    requires Moves(x) && x.head(pos) == Some(head) && props == RawSpan(x, head.next)
    requires kids == NodeIter(head.next + props, off + (head.next + props - pos), off)
    requires ok == Readable(x, AllNamesRead(x, kids.data)) && below == RawNodes(x, kids.data)
    requires PropsSpan(x, head.next) == if Readable(x, PropNames(x, head.next)) then Some(props) else None
    requires ChildrenSpan(x, kids) == if ok then Some(below) else None
    ensures PanicsUnless(ParseNode(x, off, parentOff, pos), Readable(x, NamesRead(x, pos)), RawNode(x, pos))
  {
    RawTurn(x, pos, head, kids.data, below);
    ReadableBoth(x, PropNames(x, head.next), AllNamesRead(x, kids.data));
    ResultPanics(x, off, parentOff, pos, head, kids, ok, below);
    if Readable(x, PropNames(x, head.next)) {
      NodeTurn(x, off, parentOff, pos, head, props, kids, if ok then Some(below) else None);
    } else {
      NodeStops(x, off, parentOff, pos);
    }
  }

  lemma {:induction false} ChildrenTurn(x: Lexer, it: NodeIter, r: Attempt<Parsed>)
    requires Moves(x) && r == ParseNode(x, it.offset, Some(it.parentOff), it.data)
    ensures r.Failed? ==> ChildrenSpan(x, it) == Some(0)
    ensures r.Panicked? ==> ChildrenSpan(x, it) == None
    ensures r.Got? ==> ChildrenSpan(x, it) == Plus(r.value.rest - it.data, ChildrenSpan(x, Advance(it, r.value.rest)))
  {
  }

  lemma {:induction false} RawNodesTurn(x: Lexer, pos: nat, raw: Option<nat>)
    requires Moves(x) && raw == RawNode(x, pos)
    ensures RawNodes(x, pos) == if raw.None? then 0 else raw.value - pos + RawNodes(x, raw.value)
    ensures AllNamesRead(x, pos) == NamesRead(x, pos) + if raw.None? then [] else AllNamesRead(x, raw.value)
  {
  }

  lemma {:induction false} OnePanics(x: Lexer, r: Attempt<Parsed>, raw: Option<nat>, pos: nat, here: seq<nat>,
      rest: Option<nat>, after: seq<nat>, size: nat)
    requires PanicsUnless(r, Readable(x, here), raw) && (r.Got? ==> pos <= r.value.rest)
    requires r.Got? ==> rest == if Readable(x, after) then Some(size) else None
    requires raw.None? ==> after == [] && size == 0
    ensures (if r.Failed? then Some(0) else if r.Panicked? then None else Plus(r.value.rest - pos, rest))
         == if Readable(x, here + after) then Some(if raw.None? then 0 else raw.value - pos + size) else None
  {
    ReadableBoth(x, here, after);
  }

  /** `left` tells the sum of the spans an iterator has still to yield. */
  ghost predicate SpansLeft(x: Lexer, left: NodeIter -> Option<nat>)
    requires Moves(x)
  {
    forall it {:trigger ChildrenSpan(x, it)} :: left(it) == ChildrenSpan(x, it)
  }

  lemma {:induction false} LeftTurn(x: Lexer, left: NodeIter -> Option<nat>, it: NodeIter, r: Attempt<Parsed>)
    requires Moves(x) && SpansLeft(x, left) && r == ParseNode(x, it.offset, Some(it.parentOff), it.data)
    ensures left(it) == if r.Failed? then Some(0) else if r.Panicked? then None
                        else Plus(r.value.rest - it.data, left(Advance(it, r.value.rest)))
  {
    ChildrenTurn(x, it, r);
  }

  /** What the nodes from a position on add up to, as functions of the position. */
  datatype Totals = Totals(span: NodeIter -> Option<nat>, names: nat -> seq<nat>, nodes: nat -> nat)

  ghost predicate TotalsOf(x: Lexer, s: Totals)
    requires Moves(x)
  {
    && SpansLeft(x, s.span)
    && (forall pos {:trigger AllNamesRead(x, pos)} :: s.names(pos) == AllNamesRead(x, pos))
    && (forall pos {:trigger RawNodes(x, pos)} :: s.nodes(pos) == RawNodes(x, pos))
  }

  lemma {:induction false} TotalsTurn(x: Lexer, s: Totals, it: NodeIter, r: Attempt<Parsed>, raw: Option<nat>)
    requires Moves(x) && TotalsOf(x, s)
    requires r == ParseNode(x, it.offset, Some(it.parentOff), it.data) && raw == RawNode(x, it.data)
    ensures s.span(it) == if r.Failed? then Some(0) else if r.Panicked? then None
                          else Plus(r.value.rest - it.data, s.span(Advance(it, r.value.rest)))
    ensures s.nodes(it.data) == if raw.None? then 0 else raw.value - it.data + s.nodes(raw.value)
    ensures s.names(it.data) == NamesRead(x, it.data) + if raw.None? then [] else s.names(raw.value)
  {
    LeftTurn(x, s.span, it, r);
    RawNodesTurn(x, it.data, raw);
  }

  lemma {:induction false} TotalsPanic(x: Lexer, s: Totals, it: NodeIter)
    requires Moves(x) && TotalsOf(x, s)
    ensures s.span(it) == if Readable(x, s.names(it.data)) then Some(s.nodes(it.data)) else None
    decreases x.size - it.data, 1
  {
    var r, raw := ParseNode(x, it.offset, Some(it.parentOff), it.data), RawNode(x, it.data);
    ParsePanicsIff(x, it.offset, Some(it.parentOff), it.data);
    TotalsTurn(x, s, it, r, raw);
    if r.Got? {
      TotalsPanic(x, s, Advance(it, r.value.rest));
    }
    OnePanics(x, r, raw, it.data, NamesRead(x, it.data), if r.Got? then s.span(Advance(it, r.value.rest)) else None,
      if raw.None? then [] else s.names(raw.value), if raw.None? then 0 else s.nodes(raw.value));
  }

  lemma {:induction false} ChildrenPanicIff(x: Lexer, it: NodeIter)
    requires Moves(x)
    ensures ChildrenSpan(x, it) == if Readable(x, AllNamesRead(x, it.data)) then Some(RawNodes(x, it.data)) else None
    decreases x.size - it.data, 2
  {
    TotalsPanic(x, Totals(i => ChildrenSpan(x, i), pos => AllNamesRead(x, pos), pos => RawNodes(x, pos)), it);
  }
}
