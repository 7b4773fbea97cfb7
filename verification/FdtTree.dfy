/** Navigating a parsed device tree: document order, `find`, `parent` and lookup by path, on every blob. */
module FdtTree {
  import opened Bytes
  import opened Fdt
  import opened Wrappers

  /** What parsing yields at the position of an iterator into a block of `size` bytes. */
  datatype Reader = Reader(size: nat, read: NodeIter -> Option<Parsed>)

  /** Parsing moves forward, and the children it announces lie within what it consumed. */
  ghost predicate Forward(r: Reader) {
    forall it {:trigger r.read(it)} :: r.read(it).Some? ==>
      var p := r.read(it).value; it.data < p.node.children.data < p.rest <= r.size
  }

  /** The reader reports what the parser finds. */
  predicate Same(x: Lexer, r: Reader, it: NodeIter)
    requires Moves(x)
  {
    r.read(it) == ParseNode(x, it.offset, Some(it.parentOff), it.data).ToOption()
  }

  ghost predicate ReadsWith(x: Lexer, r: Reader) {
    Moves(x) && Forward(r) && forall it {:trigger Same(x, r, it)} :: Same(x, r, it)
  }

  function SpanAll(r: Reader, it: NodeIter): nat
    requires Forward(r)
    decreases r.size - it.data
  {
    match r.read(it)
    case None => 0
    case Some(p) => p.node.span + SpanAll(r, Advance(it, p.rest))
  }

  /** The nodes an iterator yields, in order. */
  function Children(r: Reader, it: NodeIter): seq<Node>
    requires Forward(r)
    decreases r.size - it.data
  {
    match r.read(it)
    case None => []
    case Some(p) => [p.node] + Children(r, Advance(it, p.rest))
  }

  /** A node and everything below it, in document order. */
  function Preorder(r: Reader, n: Node): (ns: seq<Node>)
    requires Forward(r)
    ensures |ns| >= 1 && ns[0] == n
    decreases r.size - n.children.data, 1
  {
    [n] + Forest(r, n.children)
  }

  function Forest(r: Reader, it: NodeIter): seq<Node>
    requires Forward(r)
    decreases r.size - it.data, 0
  {
    match r.read(it)
    case None => []
    case Some(p) => Preorder(r, p.node) + Forest(r, Advance(it, p.rest))
  }

  function Find(r: Reader, n: Node, want: Node -> bool): Option<Node>
    requires Forward(r)
    decreases r.size - n.children.data, 1
  {
    if want(n) then Some(n) else FindIn(r, n.children, want)
  }

  /** The loop of `find` over the children still to come. */
  function FindIn(r: Reader, it: NodeIter, want: Node -> bool): Option<Node>
    requires Forward(r)
    decreases r.size - it.data, 0
  {
    match r.read(it)
    case None => None
    case Some(p) =>
      var found := Find(r, p.node, want);
      if found.Some? then found else FindIn(r, Advance(it, p.rest), want)
  }

  function FirstMatch(ns: seq<Node>, want: Node -> bool): (r: Option<Node>)
    ensures r.None? <==> forall n :: n in ns ==> !want(n)
    ensures r.Some? ==> r.value in ns && want(r.value)
  {
    if ns == [] then None else if want(ns[0]) then Some(ns[0]) else FirstMatch(ns[1..], want)
  }

  /** Nothing before the first match matches. */
  lemma {:induction false} FirstMatchIsFirst(ns: seq<Node>, want: Node -> bool) returns (k: nat)
    requires FirstMatch(ns, want).Some?
    ensures k < |ns| && ns[k] == FirstMatch(ns, want).value && forall i :: 0 <= i < k ==> !want(ns[i])
  {
    if want(ns[0]) {
      k := 0;
    } else {
      var j := FirstMatchIsFirst(ns[1..], want);
      k := j + 1;
    }
  }

  lemma {:induction false} FirstMatchAppend(a: seq<Node>, b: seq<Node>, want: Node -> bool)
    ensures FirstMatch(a + b, want) == if FirstMatch(a, want).Some? then FirstMatch(a, want) else FirstMatch(b, want)
  {
    if a == [] {
      assert a + b == b;
    } else {
      assert (a + b)[1..] == a[1..] + b;
      FirstMatchAppend(a[1..], b, want);
    }
  }

  /** `find` returns the first match in document order. */
  lemma {:induction false} FindIsFirst(r: Reader, n: Node, want: Node -> bool)
    requires Forward(r)
    ensures Find(r, n, want) == FirstMatch(Preorder(r, n), want)
    decreases r.size - n.children.data, 1
  {
    FindInIsFirst(r, n.children, want);
    FirstMatchAppend([n], Forest(r, n.children), want);
  }

  lemma {:induction false} FindInIsFirst(r: Reader, it: NodeIter, want: Node -> bool)
    requires Forward(r)
    ensures FindIn(r, it, want) == FirstMatch(Forest(r, it), want)
    decreases r.size - it.data, 0
  {
    if r.read(it).Some? {
      var p := r.read(it).value;
      var rest := Advance(it, p.rest);
      FindIsFirst(r, p.node, want);
      FindInIsFirst(r, rest, want);
      FirstMatchAppend(Preorder(r, p.node), Forest(r, rest), want);
    }
  }

  /** The node lies at its offset, and its children lie within its span. */
  predicate Placed(r: Reader, n: Node)
    requires Forward(r)
  {
    && n.children.data == n.children.offset && n.children.parentOff == n.off
    && n.off < n.children.offset && n.children.offset + SpanAll(r, n.children) < n.off + n.span
  }

  predicate Aligned(it: NodeIter) { it.data == it.offset }

  predicate ReadsRight(r: Reader, it: NodeIter)
    requires Forward(r)
  {
    match r.read(it)
    case None => true
    case Some(p) =>
      && p.node.off == it.offset && p.node.parentOff == Some(it.parentOff) && p.node.span == p.rest - it.data
      && (Aligned(it) ==> Placed(r, p.node))
  }

  /** Parsing records offsets, parents and spans as it moves. */
  ghost predicate Faithful(r: Reader) {
    Forward(r) && forall it {:trigger ReadsRight(r, it)} :: ReadsRight(r, it)
  }

  ghost predicate InOrder(ns: seq<Node>, lo: nat, hi: nat) {
    && (forall i {:trigger ns[i]} :: 0 <= i < |ns| ==> lo <= ns[i].off < hi)
    && (forall i, j {:trigger ns[i], ns[j]} :: 0 <= i < j < |ns| ==> ns[i].off < ns[j].off)
  }

  lemma {:induction false} InOrderAppend(a: seq<Node>, b: seq<Node>, lo: nat, mid: nat, hi: nat)
    requires InOrder(a, lo, mid) && InOrder(b, mid, hi) && lo <= mid <= hi
    ensures InOrder(a + b, lo, hi)
  {
  }

  /** Offsets grow strictly in document order, and a node's span holds everything below it. */
  lemma {:induction false} PreorderSorted(r: Reader, n: Node)
    requires Faithful(r) && Placed(r, n)
    ensures InOrder(Preorder(r, n), n.off, n.off + n.span)
    decreases r.size - n.children.data, 1
  {
    ForestSorted(r, n.children);
    InOrderAppend([n], Forest(r, n.children), n.off, n.off + 1, n.children.offset + SpanAll(r, n.children));
  }

  lemma {:induction false} ForestSorted(r: Reader, it: NodeIter)
    requires Faithful(r) && Aligned(it)
    ensures InOrder(Forest(r, it), it.offset, it.offset + SpanAll(r, it))
    decreases r.size - it.data, 0
  {
    assert ReadsRight(r, it);
    if r.read(it).Some? {
      var p := r.read(it).value;
      var rest := Advance(it, p.rest);
      PreorderSorted(r, p.node);
      ForestSorted(r, rest);
      InOrderAppend(Preorder(r, p.node), Forest(r, rest), it.offset, rest.offset, rest.offset + SpanAll(r, rest));
    }
  }

  function HasOffset(off: nat): Node -> bool { (m: Node) => m.off == off }

  /** `parent()`: a search from the root for the recorded offset. */
  function Parent(r: Reader, root: Node, n: Node): Option<Node>
    requires Forward(r)
  {
    match n.parentOff
    case None => None
    case Some(off) => Find(r, root, HasOffset(off))
  }

  lemma {:induction false} ChildPlaced(r: Reader, it: NodeIter, c: Node)
    requires Faithful(r) && Aligned(it) && c in Children(r, it)
    ensures Placed(r, c) && c.parentOff == Some(it.parentOff) && c in Forest(r, it)
    decreases r.size - it.data
  {
    assert ReadsRight(r, it);
    var p := r.read(it).value;
    if c != p.node {
      ChildPlaced(r, Advance(it, p.rest), c);
    } else {
      assert Preorder(r, c)[0] == c;
    }
  }

  lemma {:induction false} BelowPlaced(r: Reader, n: Node, m: Node)
    requires Faithful(r) && Placed(r, n) && m in Preorder(r, n)
    ensures Placed(r, m)
    decreases r.size - n.children.data, 1
  {
    if m != n {
      ForestPlaced(r, n.children, m);
    }
  }

  lemma {:induction false} ForestPlaced(r: Reader, it: NodeIter, m: Node)
    requires Faithful(r) && Aligned(it) && m in Forest(r, it)
    ensures Placed(r, m)
    decreases r.size - it.data, 0
  {
    assert ReadsRight(r, it);
    var p := r.read(it).value;
    if m in Preorder(r, p.node) {
      BelowPlaced(r, p.node, m);
    } else {
      ForestPlaced(r, Advance(it, p.rest), m);
    }
  }

  /** Offsets identify nodes: searching for the offset of a node of the tree finds that node. */
  lemma {:induction false} FindAgain(r: Reader, root: Node, n: Node)
    requires Faithful(r) && Placed(r, root) && n in Preorder(r, root)
    ensures Find(r, root, HasOffset(n.off)) == Some(n)
  {
    PreorderSorted(r, root);
    FindIsFirst(r, root, HasOffset(n.off));
    assert HasOffset(n.off)(n);
  }

  /** `parent()` of a node reached by iterating the children of `n` is `n` itself. */
  lemma {:induction false} ParentOfChild(r: Reader, root: Node, n: Node, c: Node)
    requires Faithful(r) && Placed(r, root) && n in Preorder(r, root) && c in Children(r, n.children)
    ensures Parent(r, root, c) == Some(n)
  {
    BelowPlaced(r, root, n);
    ChildPlaced(r, n.children, c);
    FindAgain(r, root, n);
  }

  /** What lies below a node of the tree is in the tree. */
  lemma {:induction false} BelowWithin(r: Reader, root: Node, n: Node, m: Node)
    requires Forward(r) && n in Preorder(r, root) && m in Forest(r, n.children)
    ensures m in Preorder(r, root)
    decreases r.size - root.children.data, 1
  {
    if n != root {
      ForestWithin(r, root.children, n, m);
    }
  }

  lemma {:induction false} ForestWithin(r: Reader, it: NodeIter, n: Node, m: Node)
    requires Forward(r) && n in Forest(r, it) && m in Forest(r, n.children)
    ensures m in Forest(r, it)
    decreases r.size - it.data, 0
  {
    var p := r.read(it).value;
    if n in Preorder(r, p.node) {
      BelowWithin(r, p.node, n, m);
    } else {
      ForestWithin(r, Advance(it, p.rest), n, m);
    }
  }

  lemma {:induction false} ChildWithin(r: Reader, root: Node, n: Node, c: Node)
    requires Faithful(r) && Placed(r, root) && n in Preorder(r, root) && c in Children(r, n.children)
    ensures c in Preorder(r, root)
  {
    BelowPlaced(r, root, n);
    ChildPlaced(r, n.children, c);
    BelowWithin(r, root, n, c);
  }

  predicate ChildOf(r: Reader, n: Node, c: Node)
    requires Forward(r)
  {
    c in Children(r, n.children)
  }

  /** Every node of the tree but the root is among the children of another one. */
  lemma {:induction false} HasParent(r: Reader, root: Node, m: Node) returns (n: Node)
    requires Forward(r) && m in Preorder(r, root) && m != root
    ensures n in Preorder(r, root) && ChildOf(r, n, m)
    decreases r.size - root.children.data, 1
  {
    if m in Children(r, root.children) {
      n := root;
    } else {
      n := ForestParent(r, root.children, m);
    }
  }

  lemma {:induction false} ForestParent(r: Reader, it: NodeIter, m: Node) returns (n: Node)
    requires Forward(r) && m in Forest(r, it) && m !in Children(r, it)
    ensures n in Forest(r, it) && ChildOf(r, n, m)
    decreases r.size - it.data, 0
  {
    var p := r.read(it).value;
    assert p.node in Children(r, it);
    if m in Preorder(r, p.node) {
      n := HasParent(r, p.node, m);
    } else {
      n := ForestParent(r, Advance(it, p.rest), m);
    }
  }

  function Named(name: seq<Byte>): Node -> bool { (m: Node) => m.name == name }

  /** Follows `names` downwards, taking the first child of each name. */
  function Descend(r: Reader, n: Node, names: seq<seq<Byte>>): Option<Node>
    requires Forward(r)
    decreases |names|
  {
    if names == [] then Some(n)
    else match FirstMatch(Children(r, n.children), Named(names[0]))
      case None => None
      case Some(c) => Descend(r, c, names[1..])
  }

  /** Number `k` is the first of the nodes that is called `name`. */
  predicate FirstNamed(cs: seq<Node>, name: seq<Byte>, k: nat) {
    k < |cs| && cs[k].name == name && forall j {:trigger cs[j]} :: 0 <= j < k ==> cs[j].name != name
  }

  /** `c` is the first child of `n` that is called `name`. */
  ghost predicate FirstChild(r: Reader, n: Node, name: seq<Byte>, c: Node)
    requires Forward(r)
  {
    var cs := Children(r, n.children);
    exists k: nat {:trigger FirstNamed(cs, name, k)} :: FirstNamed(cs, name, k) && cs[k] == c
  }

  /** No child of `n` is called `name`. */
  ghost predicate NoChild(r: Reader, n: Node, name: seq<Byte>)
    requires Forward(r)
  {
    forall c :: c in Children(r, n.children) ==> c.name != name
  }

  /** The nodes `ns` lead from `n` down the names, each to the first child of the next name. */
  ghost predicate Leads(r: Reader, n: Node, names: seq<seq<Byte>>, ns: seq<Node>)
    requires Forward(r)
  {
    && |ns| == |names| + 1 && ns[0] == n
    && forall i {:trigger names[i]} :: 0 <= i < |names| ==> FirstChild(r, ns[i], names[i], ns[i + 1])
  }

  /** After `i` names the nodes `ns` come to one that has no child of the next name. */
  ghost predicate Strands(r: Reader, n: Node, names: seq<seq<Byte>>, i: nat, ns: seq<Node>)
    requires Forward(r)
  {
    i < |names| && Leads(r, n, names[..i], ns) && NoChild(r, ns[i], names[i])
  }

  lemma {:induction false} MatchIs(cs: seq<Node>, name: seq<Byte>, k: nat)
    requires FirstNamed(cs, name, k)
    ensures FirstMatch(cs, Named(name)) == Some(cs[k])
  {
    if k > 0 {
      assert cs[1..][k - 1] == cs[k] && forall j {:trigger cs[1..][j]} :: 0 <= j < k - 1 ==> cs[1..][j] == cs[j + 1];
      assert cs[0].name != name;
      MatchIs(cs[1..], name, k - 1);
    }
  }

  lemma {:induction false} ChildMatch(r: Reader, n: Node, name: seq<Byte>)
    requires Forward(r)
    ensures var c := FirstMatch(Children(r, n.children), Named(name));
            if c.Some? then FirstChild(r, n, name, c.value) else NoChild(r, n, name)
  {
    var cs := Children(r, n.children);
    if FirstMatch(cs, Named(name)).Some? {
      var k := FirstMatchIsFirst(cs, Named(name));
      assert forall j {:trigger cs[j]} :: 0 <= j < k ==> !Named(name)(cs[j]);
      assert FirstNamed(cs, name, k);
    } else {
      assert forall c :: c in cs ==> !Named(name)(c);
    }
  }

  lemma {:induction false} LeadsTail(r: Reader, n: Node, names: seq<seq<Byte>>, ns: seq<Node>)
    requires Forward(r) && Leads(r, n, names, ns) && names != []
    ensures FirstChild(r, n, names[0], ns[1]) && Leads(r, ns[1], names[1..], ns[1..])
  {
    forall i {:trigger names[1..][i]} | 0 <= i < |names| - 1
      ensures FirstChild(r, ns[1..][i], names[1..][i], ns[1..][i + 1])
    {
      assert names[1..][i] == names[i + 1];
    }
  }

  lemma {:induction false} LeadsMore(r: Reader, n: Node, names: seq<seq<Byte>>, c: Node, ns: seq<Node>)
    requires Forward(r) && names != [] && FirstChild(r, n, names[0], c) && Leads(r, c, names[1..], ns)
    ensures Leads(r, n, names, [n] + ns)
  {
    forall i {:trigger names[i]} | 0 <= i < |names|
      ensures FirstChild(r, ([n] + ns)[i], names[i], ([n] + ns)[i + 1])
    {
      if i > 0 {
        assert names[i] == names[1..][i - 1];
      }
    }
  }

  /** Where the names lead, the lookup ends. */
  lemma {:induction false} DescendFinds(r: Reader, n: Node, names: seq<seq<Byte>>, ns: seq<Node>)
    requires Forward(r) && Leads(r, n, names, ns)
    ensures Descend(r, n, names) == Some(ns[|names|])
    decreases |names|
  {
    if names != [] {
      LeadsTail(r, n, names, ns);
      var cs := Children(r, n.children);
      var k: nat :| FirstNamed(cs, names[0], k) && cs[k] == ns[1];
      MatchIs(cs, names[0], k);
      DescendFinds(r, ns[1], names[1..], ns[1..]);
    }
  }

  /** Where they strand, it finds nothing. */
  lemma {:induction false} DescendStrands(r: Reader, n: Node, names: seq<seq<Byte>>, i: nat, ns: seq<Node>)
    requires Forward(r) && Strands(r, n, names, i, ns)
    ensures Descend(r, n, names) == None
    decreases |names|
  {
    if i == 0 {
      ChildMatch(r, n, names[0]);
    } else {
      LeadsTail(r, n, names[..i], ns);
      var cs := Children(r, n.children);
      var k: nat :| FirstNamed(cs, names[0], k) && cs[k] == ns[1];
      MatchIs(cs, names[0], k);
      assert names[..i][1..] == names[1..][..i - 1];
      DescendStrands(r, ns[1], names[1..], i - 1, ns[1..]);
    }
  }

  /** One of the two is the case. */
  lemma {:induction false} LeadsOrStrands(r: Reader, n: Node, names: seq<seq<Byte>>) returns (i: nat, ns: seq<Node>)
    requires Forward(r)
    ensures if i == |names| then Leads(r, n, names, ns) else Strands(r, n, names, i, ns)
    decreases |names|
  {
    if names == [] {
      return 0, [n];
    }
    ChildMatch(r, n, names[0]);
    var c := FirstMatch(Children(r, n.children), Named(names[0]));
    if c.None? {
      return 0, [n];
    }
    i, ns := LeadsOrStrands(r, c.value, names[1..]);
    assert names[..i + 1][1..] == names[1..][..i] && names[1..][..|names| - 1] == names[1..];
    LeadsMore(r, n, names[..i + 1], c.value, ns);
    assert i + 1 == |names| ==> names[..i + 1] == names;
    i, ns := i + 1, [n] + ns;
  }

  /** A lookup by names finds a node exactly if the names lead to it, and nothing exactly if they strand. */
  lemma {:induction false} DescendIff(r: Reader, n: Node, names: seq<seq<Byte>>, m: Node)
    requires Forward(r)
    ensures Descend(r, n, names) == Some(m) <==>
            exists ns {:trigger Leads(r, n, names, ns)} :: Leads(r, n, names, ns) && ns[|names|] == m
    ensures Descend(r, n, names) == None <==>
            exists i: nat, ns {:trigger Strands(r, n, names, i, ns)} :: Strands(r, n, names, i, ns)
  {
    var i, ns := LeadsOrStrands(r, n, names);
    if i == |names| {
      DescendFinds(r, n, names, ns);
    } else {
      DescendStrands(r, n, names, i, ns);
    }
    forall ns' {:trigger Leads(r, n, names, ns')} | Leads(r, n, names, ns')
      ensures Descend(r, n, names) == Some(ns'[|names|])
    {
      DescendFinds(r, n, names, ns');
    }
    forall j: nat, ns' {:trigger Strands(r, n, names, j, ns')} | Strands(r, n, names, j, ns')
      ensures Descend(r, n, names) == None
    {
      DescendStrands(r, n, names, j, ns');
    }
  }

  function Climb(r: Reader, root: Node, n: Node, k: nat): Option<Node>
    requires Forward(r)
    decreases k
  {
    if k == 0 then Some(n)
    else match Parent(r, root, n)
      case None => None
      case Some(p) => Climb(r, root, p, k - 1)
  }

  lemma {:induction false} ClimbUp(r: Reader, root: Node, n: Node, k: nat)
    requires Forward(r) && Climb(r, root, n, k).Some?
    ensures Climb(r, root, n, k + 1) == Parent(r, root, Climb(r, root, n, k).value)
    decreases k
  {
    if k > 0 {
      ClimbUp(r, root, Parent(r, root, n).value, k - 1);
    }
  }

  /** The names met on the way up from `m` are `names`, read backwards. */
  ghost predicate NamesUp(r: Reader, root: Node, m: Node, names: seq<seq<Byte>>)
    requires Forward(r)
  {
    forall k {:trigger Climb(r, root, m, k)} :: 0 <= k < |names| ==>
      Climb(r, root, m, k).Some? && Climb(r, root, m, k).value.name == names[|names| - 1 - k]
  }

  /** Looking a path up and climbing back with `parent()` meets the same names and ends where it began. */
  lemma {:induction false} DescendClimbs(r: Reader, root: Node, n: Node, names: seq<seq<Byte>>)
    requires Faithful(r) && Placed(r, root) && n in Preorder(r, root) && Descend(r, n, names).Some?
    ensures Descend(r, n, names).value in Preorder(r, root)
    ensures Climb(r, root, Descend(r, n, names).value, |names|) == Some(n)
    ensures NamesUp(r, root, Descend(r, n, names).value, names)
    decreases |names|
  {
    if names != [] {
      var m := Descend(r, n, names).value;
      var c := FirstMatch(Children(r, n.children), Named(names[0])).value;
      ChildWithin(r, root, n, c);
      ParentOfChild(r, root, n, c);
      DescendClimbs(r, root, c, names[1..]);
      ClimbMore(r, root, m, names, c);
    }
  }

  lemma {:induction false} ClimbMore(r: Reader, root: Node, m: Node, names: seq<seq<Byte>>, c: Node)
    requires Forward(r) && names != [] && c.name == names[0]
    requires NamesUp(r, root, m, names[1..]) && Climb(r, root, m, |names[1..]|) == Some(c)
    ensures NamesUp(r, root, m, names) && Climb(r, root, m, |names|) == Parent(r, root, c)
  {
    ClimbUp(r, root, m, |names[1..]|);
    forall k {:trigger Climb(r, root, m, k)} | 0 <= k < |names|
      ensures Climb(r, root, m, k).Some? && Climb(r, root, m, k).value.name == names[|names| - 1 - k]
    {
      assert k < |names| - 1 ==> names[1..][|names[1..]| - 1 - k] == names[|names| - 1 - k];
    }
  }
}
