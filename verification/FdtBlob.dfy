/** The device tree of one blob: its iterators, `find`, `parent()` and lookup by path. */
module FdtBlob {
  import opened Bytes
  import opened Fdt
  import opened FdtTree
  import opened Wrappers

  function Parse(f: Fdt, it: NodeIter): (r: Attempt<Parsed>)
    ensures r.Got? ==> it.data < r.value.node.children.data < r.value.rest <= |f.block|
  {
    ParseNode(LexerOf(f), it.offset, Some(it.parentOff), it.data)
  }

  /** What iteration yields: nothing where parsing fails.  (`DocumentQuiet` has that it never panics.) */
  function ReaderOf(f: Fdt): (r: Reader)
    ensures Forward(r)
  {
    Reader(|f.block|, it => Parse(f, it).ToOption())
  }

  /** Iterating the properties and the children of the node does not panic. */
  predicate Quiet(f: Fdt, n: Node) {
    PropsSpan(LexerOf(f), n.props).Some? && ChildrenSpan(LexerOf(f), n.children).Some?
  }

  /** Once a node is parsed, going through it again does not panic. */
  lemma {:induction false} ParsedQuiet(f: Fdt, off: nat, parentOff: Option<nat>, pos: nat)
    requires ParseNode(LexerOf(f), off, parentOff, pos).Got?
    ensures Quiet(f, ParseNode(LexerOf(f), off, parentOff, pos).value.node)
  {
    var x := LexerOf(f);
    var head := x.head(pos).value;
    var props := PropsSpan(x, head.next).value;
    var kids := NodeIter(head.next + props, off + (head.next + props - pos), off);
    NodeTurn(x, off, parentOff, pos, head, props, kids, ChildrenSpan(x, kids));
  }

  lemma {:induction false} IterQuiet(f: Fdt, it: NodeIter)
    requires ChildrenSpan(LexerOf(f), it).Some?
    ensures !Parse(f, it).Panicked?
    ensures Parse(f, it).Got? ==> Quiet(f, Parse(f, it).value.node)
    ensures Parse(f, it).Got? ==> ChildrenSpan(LexerOf(f), Advance(it, Parse(f, it).value.rest)).Some?
  {
    ChildrenTurn(LexerOf(f), it, Parse(f, it));
    if Parse(f, it).Got? {
      ParsedQuiet(f, it.offset, Some(it.parentOff), it.data);
    }
  }

  lemma {:induction false} BlobReads(f: Fdt)
    ensures ReadsWith(LexerOf(f), ReaderOf(f))
  {
    var x, r := LexerOf(f), ReaderOf(f);
    forall it {:trigger Same(x, r, it)}
      ensures Same(x, r, it)
    {
      assert r.read(it) == Parse(f, it).ToOption();
    }
  }

  lemma {:induction false} LeftIs(x: Lexer, r: Reader, left: NodeIter -> Option<nat>, it: NodeIter)
    requires ReadsWith(x, r) && SpansLeft(x, left) && left(it).Some?
    ensures left(it) == Some(SpanAll(r, it))
    decreases r.size - it.data
  {
    var p := ParseNode(x, it.offset, Some(it.parentOff), it.data);
    assert Same(x, r, it);
    LeftTurn(x, left, it, p);
    if p.Got? {
      LeftIs(x, r, left, Advance(it, p.value.rest));
    }
  }

  /** The sum the parser skips by is the sum of the spans that iteration reports. */
  lemma {:induction false} SpanAllIs(x: Lexer, r: Reader, it: NodeIter)
    requires ReadsWith(x, r) && ChildrenSpan(x, it).Some?
    ensures ChildrenSpan(x, it) == Some(SpanAll(r, it))
  {
    LeftIs(x, r, i => ChildrenSpan(x, i), it);
  }

  lemma {:induction false} ParsedPlaced(f: Fdt, off: nat, parentOff: Option<nat>)
    requires ParseNode(LexerOf(f), off, parentOff, off).Got?
    ensures Placed(ReaderOf(f), ParseNode(LexerOf(f), off, parentOff, off).value.node)
  {
    var x, p := LexerOf(f), ParseNode(LexerOf(f), off, parentOff, off).value;
    var head := x.head(off).value;
    var props := PropsSpan(x, head.next).value;
    var kids := NodeIter(head.next + props, off + (head.next + props - off), off);
    NodeTurn(x, off, parentOff, off, head, props, kids, ChildrenSpan(x, kids));
    BlobReads(f);
    SpanAllIs(x, ReaderOf(f), kids);
  }

  lemma {:induction false} ReaderFaithful(f: Fdt)
    ensures Faithful(ReaderOf(f))
  {
    var r := ReaderOf(f);
    forall it {:trigger ReadsRight(r, it)}
      ensures ReadsRight(r, it)
    {
      assert r.read(it) == Parse(f, it).ToOption();
      if r.read(it).Some? && Aligned(it) {
        ParsedPlaced(f, it.offset, Some(it.parentOff));
      }
    }
  }

  /** `root_node` */
  function ParseRoot(f: Fdt): Attempt<Node> {
    match ParseNode(LexerOf(f), 0, None, 0)
    case Failed => Failed
    case Panicked => Panicked
    case Got(p) => Got(p.node)
  }

  function Root(f: Fdt): Option<Node> { ParseRoot(f).ToOption() }

  /** All nodes of the blob in document order. */
  function Document(f: Fdt): seq<Node> {
    if Root(f).None? then [] else Preorder(ReaderOf(f), Root(f).value)
  }

  /** `find`; it fails or panics where the root does. */
  function FindNode(f: Fdt, want: Node -> bool): Attempt<Option<Node>> {
    match ParseRoot(f)
    case Failed => Failed
    case Panicked => Panicked
    case Got(root) => Got(Find(ReaderOf(f), root, want))
  }

  /** `parent()`, which takes a failure for no parent. */
  function ParentOf(f: Fdt, n: Node): Attempt<Option<Node>> {
    if n.parentOff.None? then Got(None)
    else
      var r := FindNode(f, HasOffset(n.parentOff.value));
      if r.Failed? then Got(None) else r
  }

  lemma {:induction false} RootPlaced(f: Fdt)
    requires Root(f).Some?
    ensures Faithful(ReaderOf(f)) && Placed(ReaderOf(f), Root(f).value)
    ensures Root(f).value.off == 0 && Root(f).value.parentOff == None
  {
    ReaderFaithful(f);
    ParsedPlaced(f, 0, None);
  }

  lemma {:induction false} BelowQuiet(f: Fdt, n: Node, m: Node)
    requires Quiet(f, n) && m in Preorder(ReaderOf(f), n)
    ensures Quiet(f, m)
    decreases |f.block| - n.children.data, 1
  {
    if m != n {
      ForestQuiet(f, n.children, m);
    }
  }

  lemma {:induction false} ForestQuiet(f: Fdt, it: NodeIter, m: Node)
    requires ChildrenSpan(LexerOf(f), it).Some? && m in Forest(ReaderOf(f), it)
    ensures Quiet(f, m)
    decreases |f.block| - it.data, 0
  {
    var r := ReaderOf(f);
    assert r.read(it) == Parse(f, it).ToOption();
    IterQuiet(f, it);
    var p := r.read(it).value;
    if m in Preorder(r, p.node) {
      BelowQuiet(f, p.node, m);
    } else {
      ForestQuiet(f, Advance(it, p.rest), m);
    }
  }

  /** Once the root is parsed, no iteration anywhere in the document panics. */
  lemma {:induction false} DocumentQuiet(f: Fdt, n: Node)
    requires n in Document(f)
    ensures Quiet(f, n)
  {
    ParsedQuiet(f, 0, None, 0);
    BelowQuiet(f, Root(f).value, n);
  }

  /** On every blob offsets grow strictly in document order and stay within the root's span. */
  lemma {:induction false} DocumentOrder(f: Fdt)
    requires Root(f).Some?
    ensures InOrder(Document(f), 0, Root(f).value.span)
  {
    RootPlaced(f);
    PreorderSorted(ReaderOf(f), Root(f).value);
  }

  /** On every blob `find` returns the first match in document order, unless there is no root. */
  lemma {:induction false} FindNodeIsFirst(f: Fdt, want: Node -> bool)
    ensures FindNode(f, want) == match ParseRoot(f)
                                 case Failed => Failed
                                 case Panicked => Panicked
                                 case Got(_) => Got(FirstMatch(Document(f), want))
  {
    if Root(f).Some? {
      FindIsFirst(ReaderOf(f), Root(f).value, want);
    }
  }

  /** On every blob `parent()` searches the document for the offset; without a root it finds nothing. */
  lemma {:induction false} ParentSearches(f: Fdt, n: Node)
    ensures ParentOf(f, n) == if n.parentOff.None? then Got(None) else match ParseRoot(f)
                                case Failed => Got(None)
                                case Panicked => Panicked
                                case Got(_) => Got(FirstMatch(Document(f), HasOffset(n.parentOff.value)))
  {
    if n.parentOff.Some? {
      FindNodeIsFirst(f, HasOffset(n.parentOff.value));
    }
  }

  lemma {:induction false} ParentIs(f: Fdt, n: Node)
    requires Root(f).Some?
    ensures ParentOf(f, n) == Got(Parent(ReaderOf(f), Root(f).value, n))
  {
  }

  /** On every blob `parent()` of a node reached by iterating the children of `n` is `n` itself. */
  lemma {:induction false} ParentIsOrigin(f: Fdt, n: Node, c: Node)
    requires n in Document(f) && c in Children(ReaderOf(f), n.children)
    ensures ParentOf(f, c) == Got(Some(n)) && c in Document(f)
  {
    RootPlaced(f);
    ParentIs(f, c);
    ParentOfChild(ReaderOf(f), Root(f).value, n, c);
    ChildWithin(ReaderOf(f), Root(f).value, n, c);
  }

  /** The root has no parent, and every other node of the document has its origin as parent. */
  lemma {:induction false} ParentExists(f: Fdt, m: Node)
    requires m in Document(f)
    ensures ParentOf(f, m).Got? && (ParentOf(f, m).value.None? <==> m == Root(f).value)
    ensures var n := ParentOf(f, m).value; n.Some? ==> n.value in Document(f) && ChildOf(ReaderOf(f), n.value, m)
  {
    RootPlaced(f);
    if m != Root(f).value {
      var n := HasParent(ReaderOf(f), Root(f).value, m);
      ParentIsOrigin(f, n, m);
    }
  }

  const SLASH: Byte := 47

  function FindSlash(s: seq<Byte>): (i: nat)
    ensures i <= |s| && (i < |s| ==> s[i] == SLASH) && SLASH !in s[..i]
  {
    if s == [] || s[0] == SLASH then 0
    else
      var i := FindSlash(s[1..]) + 1;
      assert s[..i] == [s[0]] + s[1..][..i - 1];
      i
  }

  function Split(s: seq<Byte>): (r: seq<seq<Byte>>)
    ensures |r| >= 1
  {
    var i := FindSlash(s);
    if i == |s| then [s] else [s[..i]] + Split(s[i + 1..])
  }

  function Join(names: seq<seq<Byte>>): seq<Byte>
    requires names != []
  {
    if |names| == 1 then names[0] else names[0] + [SLASH] + Join(names[1..])
  }

  /** The components of a path are free of slashes and give the path back when joined. */
  lemma {:induction false} SplitJoins(s: seq<Byte>)
    ensures Join(Split(s)) == s && forall i :: 0 <= i < |Split(s)| ==> SLASH !in Split(s)[i]
  {
    var i := FindSlash(s);
    if i == |s| {
      assert s[..i] == s;
    } else {
      SplitJoins(s[i + 1..]);
      assert Split(s)[1..] == Split(s[i + 1..]);
      assert s == s[..i] + [SLASH] + s[i + 1..];
    }
  }

  /** The sum of what an iterator yields next and of the rest. */
  function NodeAndRest(n: Attempt<Node>, rest: Option<nat>): Option<nat> {
    if n.Got? then Plus(n.value.span, rest) else if n.Failed? then Some(0) else None
  }

  function PropAndRest(p: Attempt<Property>, rest: Option<nat>): Option<nat> {
    if p.Got? then Plus(p.value.span, rest) else if p.Failed? then Some(0) else None
  }

  lemma {:induction false} PlusPlus(a: nat, b: nat, rest: Option<nat>)
    ensures Plus(a, Plus(b, rest)) == Plus(a + b, rest)
  {
  }

  /** The node iterator: `offset` follows `data` through the block. */
  class Nodes {
    const fdt: Fdt
    var data: nat
    var offset: nat
    const parentOff: nat

    function It(): NodeIter
      reads this
    {
      NodeIter(data, offset, parentOff)
    }

    constructor (fdt: Fdt, it: NodeIter)
      ensures this.fdt == fdt && It() == it
    {
      this.fdt, data, offset, parentOff := fdt, it.data, it.offset, it.parentOff;
    }

    /** Parses the next node and moves behind it. */
    method Step() returns (r: Attempt<Node>)
      modifies this
      ensures match Parse(fdt, old(It()))
              case Failed => r.Failed? && It() == old(It())
              case Panicked => r.Panicked? && It() == old(It())
              case Got(p) => r == Got(p.node) && It() == Advance(old(It()), p.rest)
    {
      var p := ParseNode(LexerOf(fdt), offset, Some(parentOff), data);
      match p {
        case Failed => return Failed;
        case Panicked => return Panicked;
        case Got(parsed) =>
          offset := offset + (parsed.rest - data);
          data := parsed.rest;
          return Got(parsed.node);
      }
    }

    method Next() returns (r: Attempt<Node>)
      modifies this
      ensures r.Panicked? <==> Parse(fdt, old(It())).Panicked?
      ensures r.Got? ==> old(data) < data <= |fdt.block|
      ensures !r.Got? ==> It() == old(It())
      ensures Children(ReaderOf(fdt), old(It())) == if r.Got? then [r.value] + Children(ReaderOf(fdt), It()) else []
      ensures ChildrenSpan(LexerOf(fdt), old(It())) == NodeAndRest(r, ChildrenSpan(LexerOf(fdt), It()))
    {
      ghost var it := It();
      assert ReaderOf(fdt).read(it) == Parse(fdt, it).ToOption();
      ChildrenTurn(LexerOf(fdt), it, Parse(fdt, it));
      r := Step();
    }

    /** One turn of the loop of `Sum`. */
    method Add(ghost left: NodeIter -> Option<nat>) returns (r: Attempt<Node>)
      requires SpansLeft(LexerOf(fdt), left)
      modifies this
      ensures if r.Got? then old(data) < data <= |fdt.block| else data == old(data)
      ensures left(old(It())) == NodeAndRest(r, left(It()))
    {
      ghost var it := It();
      r := Next();
      assert left(it) == ChildrenSpan(LexerOf(fdt), it) && left(It()) == ChildrenSpan(LexerOf(fdt), It());
    }

    method Sum(ghost left: NodeIter -> Option<nat>) returns (sum: Option<nat>)
      requires SpansLeft(LexerOf(fdt), left)
      modifies this
      ensures sum == left(old(It()))
    {
      ghost var total := left(It());
      var n := Add(left);
      var sofar: nat := 0;
      while n.Got?
        invariant n.Got? ==> data <= |fdt.block|
        invariant total == Plus(sofar, NodeAndRest(n, left(It())))
        decreases |fdt.block| - data, n.Got?
      {
        PlusPlus(sofar, n.value.span, left(It()));
        sofar := sofar + n.value.span;
        n := Add(left);
      }
      return if n.Failed? then Some(sofar) else None;
    }

    /** The sum of the spans of everything still to come; None is a panic. */
    method Span() returns (sum: Option<nat>)
      modifies this
      ensures sum == old(ChildrenSpan(LexerOf(fdt), It()))
    {
      ghost var f := fdt;
      ghost var left := (it: NodeIter) => ChildrenSpan(LexerOf(f), it);
      assert left(It()) == ChildrenSpan(LexerOf(f), It());
      sum := Sum(left);
    }
  }

  /** The property iterator. */
  class Properties {
    const fdt: Fdt
    var data: nat

    constructor (fdt: Fdt, data: nat)
      ensures this.fdt == fdt && this.data == data
    {
      this.fdt, this.data := fdt, data;
    }

    method Next() returns (r: Attempt<Property>)
      modifies this
      ensures r.Panicked? <==> ParseProperty(LexerOf(fdt), old(data)).Panicked?
      ensures r.Got? ==> old(data) < data <= |fdt.block|
      ensures !r.Got? ==> data == old(data)
      ensures PropList(LexerOf(fdt), old(data)) == if r.Got? then [r.value] + PropList(LexerOf(fdt), data) else []
      ensures PropsSpan(LexerOf(fdt), old(data)) == PropAndRest(r, PropsSpan(LexerOf(fdt), data))
      ensures match r
              case Got(p) => ParseProperty(LexerOf(fdt), old(data)) == Got(ParsedProperty(data, p))
              case _ => !ParseProperty(LexerOf(fdt), old(data)).Got?
    {
      var p := ParseProperty(LexerOf(fdt), data);
      match p {
        case Failed => return Failed;
        case Panicked => return Panicked;
        case Got(parsed) =>
          data := parsed.rest;
          return Got(parsed.prop);
      }
    }

    /** One turn of the loop of `Sum`. */
    method Add(ghost left: nat -> Option<nat>) returns (r: Attempt<Property>)
      requires PropsLeft(LexerOf(fdt), left)
      modifies this
      ensures if r.Got? then old(data) < data <= |fdt.block| else data == old(data)
      ensures left(old(data)) == PropAndRest(r, left(data))
    {
      ghost var pos := data;
      r := Next();
      assert left(pos) == PropsSpan(LexerOf(fdt), pos) && left(data) == PropsSpan(LexerOf(fdt), data);
    }

    method Sum(ghost left: nat -> Option<nat>) returns (sum: Option<nat>)
      requires PropsLeft(LexerOf(fdt), left)
      modifies this
      ensures sum == left(old(data))
    {
      ghost var total := left(data);
      var p := Add(left);
      var sofar: nat := 0;
      while p.Got?
        invariant p.Got? ==> data <= |fdt.block|
        invariant total == Plus(sofar, PropAndRest(p, left(data)))
        decreases |fdt.block| - data, p.Got?
      {
        PlusPlus(sofar, p.value.span, left(data));
        sofar := sofar + p.value.span;
        p := Add(left);
      }
      return if p.Failed? then Some(sofar) else None;
    }

    /** The sum of the spans of everything still to come; None is a panic. */
    method Span() returns (sum: Option<nat>)
      modifies this
      ensures sum == PropsSpan(LexerOf(fdt), old(data))
    {
      ghost var f := fdt;
      ghost var left := (pos: nat) => PropsSpan(LexerOf(f), pos);
      assert left(data) == PropsSpan(LexerOf(f), data);
      sum := Sum(left);
    }
  }

  /** The first property called `name` from `pos` on, unless a lookup panics before it. */
  function FirstCalled(x: Lexer, pos: nat, name: seq<Byte>): Attempt<Property>
    requires Moves(x)
    decreases x.size - pos
  {
    match ParseProperty(x, pos)
    case Failed => Failed
    case Panicked => Panicked
    case Got(p) => if p.prop.name == Some(name) then Got(p.prop) else FirstCalled(x, p.rest, name)
  }

  predicate Called(p: Property, name: seq<Byte>) { p.name == Some(name) }

  /** Where nothing panics it is the first of that name in the list, and fails exactly if there is none. */
  lemma {:induction false} CalledIsFirst(x: Lexer, pos: nat, name: seq<Byte>) returns (k: nat)
    requires Moves(x) && PropsSpan(x, pos).Some?
    ensures k <= |PropList(x, pos)| && forall i {:trigger PropList(x, pos)[i]} :: 0 <= i < k ==>
        !Called(PropList(x, pos)[i], name)
    ensures FirstCalled(x, pos, name) == if k < |PropList(x, pos)| then Got(PropList(x, pos)[k]) else Failed
    ensures k < |PropList(x, pos)| ==> Called(PropList(x, pos)[k], name)
    decreases x.size - pos
  {
    match ParseProperty(x, pos)
    case Failed => k := 0;
    case Got(p) =>
      if Called(p.prop, name) {
        k := 0;
      } else {
        var j := CalledIsFirst(x, p.rest, name);
        k := j + 1;
      }
  }

  method FindProperty(f: Fdt, n: Node, name: seq<Byte>) returns (r: Attempt<Property>)
    ensures r == FirstCalled(LexerOf(f), n.props, name)
  {
    var it := new Properties(f, n.props);
    ghost var x := LexerOf(f);
    r := it.Next();
    while r.Got? && r.value.name != Some(name)
      invariant it.fdt == f && (r.Got? ==> it.data <= |f.block|)
      invariant FirstCalled(x, n.props, name)
             == if r.Got? && r.value.name != Some(name) then FirstCalled(x, it.data, name) else r
      decreases |f.block| - it.data, r.Got?
    {
      r := it.Next();
    }
  }

  /** A first match, as an attempt. */
  function Attempted(o: Option<Node>): Attempt<Node> { if o.Some? then Got(o.value) else Failed }

  /** The first child of that name; iterating the children of a parsed node does not panic. */
  method FindChild(f: Fdt, n: Node, name: seq<Byte>) returns (r: Attempt<Node>)
    ensures Quiet(f, n) ==> !r.Panicked?
    ensures !r.Panicked? ==> r == Attempted(FirstMatch(Children(ReaderOf(f), n.children), Named(name)))
  {
    var it := new Nodes(f, n.children);
    ghost var reader := ReaderOf(f);
    r := it.Next();
    while r.Got? && r.value.name != name
      invariant it.fdt == f && (r.Got? ==> it.data <= |f.block|)
      invariant Quiet(f, n) ==> !r.Panicked? && (r.Got? ==> ChildrenSpan(LexerOf(f), it.It()).Some?)
      invariant FirstMatch(Children(reader, n.children), Named(name))
             == FirstMatch(if r.Got? then [r.value] + Children(reader, it.It()) else [], Named(name))
      decreases |f.block| - it.data, r.Got?
    {
      assert ([r.value] + Children(reader, it.It()))[1..] == Children(reader, it.It());
      r := it.Next();
    }
  }

  datatype PathResult = Err | PathPanic | Ok(node: Option<Node>)

  predicate IsRootPath(path: seq<Byte>) { path == [] || path == [SLASH] }

  /** The components a path stands for; its first byte is dropped unread. */
  function Components(path: seq<Byte>): seq<seq<Byte>> {
    if IsRootPath(path) then [] else Split(path[1..])
  }

  /** A string cannot be cut behind its first byte: its first character is longer. */
  predicate LongFirst(path: seq<Byte>) { Continuation(path, 1) }

  lemma {:induction false} LongFirstIff(path: seq<Byte>)
    requires Utf8(path)
    ensures LongFirst(path) <==> path != [] && path[0] >= 0x80
  {
    if path != [] && path[0] < 0x80 && |path| > 1 {
      assert path[1..][0] == path[1];
    }
  }

  /** A path longer than one byte leads where it would with any other first byte ... */
  lemma {:induction false} FirstByteIgnored(a: seq<Byte>, b: seq<Byte>)
    requires |a| == |b| >= 2 && a[1..] == b[1..]
    ensures Components(a) == Components(b)
  {
  }

  /** ... so it is followed as written if and only if it begins with a slash. */
  lemma {:induction false} FollowedIff(path: seq<Byte>)
    requires !IsRootPath(path)
    ensures Components(path) != []
    ensures [SLASH] + Join(Components(path)) == path <==> path[0] == SLASH
  {
    SplitJoins(path[1..]);
    assert path == [path[0]] + path[1..];
    assert ([SLASH] + path[1..])[0] == SLASH;
  }

  method FindByPath(f: Fdt, path: seq<Byte>) returns (r: PathResult)
    requires Utf8(path)
    ensures r.Err? <==> ParseRoot(f).Failed?
    ensures r.PathPanic? <==> ParseRoot(f).Panicked? || (ParseRoot(f).Got? && !IsRootPath(path) && LongFirst(path))
    ensures r.Ok? && (path == [] || path == [47]) ==> r.node == Root(f)
    ensures r.Ok? ==> r.node == Descend(ReaderOf(f), Root(f).value, Components(path))
    ensures r.Ok? && r.node.Some? ==>
              exists ns {:trigger Leads(ReaderOf(f), Root(f).value, Components(path), ns)} ::
                Leads(ReaderOf(f), Root(f).value, Components(path), ns) && ns[|Components(path)|] == r.node.value
    ensures r.Ok? && r.node.None? ==>
              exists i: nat, ns {:trigger Strands(ReaderOf(f), Root(f).value, Components(path), i, ns)} ::
                Strands(ReaderOf(f), Root(f).value, Components(path), i, ns)
  {
    var root := ParseRoot(f);
    if root.Failed? {
      return Err;
    }
    if root.Panicked? {
      return PathPanic;
    }
    DescendIff(ReaderOf(f), root.value, Components(path), root.value);
    if path == [] || path == [SLASH] {
      return Ok(Some(root.value));
    }
    if LongFirst(path) {
      return PathPanic;
    }
    var node := Follow(f, root.value, Split(path[1..]));
    if node.Some? {
      DescendIff(ReaderOf(f), root.value, Components(path), node.value);
    }
    return Ok(node);
  }

  /** The loop of `FindByPath` over the names. */
  method Follow(f: Fdt, root: Node, names: seq<seq<Byte>>) returns (r: Option<Node>)
    requires Root(f) == Some(root)
    ensures r == Descend(ReaderOf(f), root, names)
  {
    ghost var reader := ReaderOf(f);
    var node := root;
    RootPlaced(f);
    ParsedQuiet(f, 0, None, 0);
    assert names[0..] == names;
    for i := 0 to |names|
      invariant Placed(reader, node) && Quiet(f, node)
      invariant Descend(reader, root, names) == Descend(reader, node, names[i..])
    {
      assert names[i..][1..] == names[i + 1..];
      var child := FindChild(f, node, names[i]);
      if !child.Got? {
        return None;
      }
      ChildPlaced(reader, node.children, child.value);
      ForestQuiet(f, node.children, child.value);
      node := child.value;
    }
    return Some(node);
  }

  /** Climbing `parent()` from the node a path leads to meets the components backwards, then the root. */
  lemma {:induction false} PathClimbs(f: Fdt, path: seq<Byte>)
    requires Root(f).Some? && Descend(ReaderOf(f), Root(f).value, Components(path)).Some?
    ensures var m, names := Descend(ReaderOf(f), Root(f).value, Components(path)).value, Components(path);
      && m in Document(f) && NamesUp(ReaderOf(f), Root(f).value, m, names)
      && Climb(ReaderOf(f), Root(f).value, m, |names|) == Root(f)
  {
    RootPlaced(f);
    DescendClimbs(ReaderOf(f), Root(f).value, Root(f).value, Components(path));
  }
}
