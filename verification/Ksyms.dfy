/** The kernel symbol table: the tables the generator emits, and the lookup that reads them. */
module Ksyms {
  import opened Bytes
  import opened Wrappers

  datatype Symbol = Symbol(addr: nat, name: seq<Byte>)

  /** `n` offsets, `n + 1` markers, and the zero-terminated names one after the other. */
  datatype Tables = Tables(offsets: seq<nat>, markers: seq<nat>, names: seq<Byte>)

  ghost predicate Sorted(s: seq<Symbol>) {
    forall i, j {:trigger s[i], s[j]} :: 0 <= i < j < |s| ==> s[i].addr <= s[j].addr
  }

  /** Where the name of symbol number `i` starts. */
  function Marker(s: seq<Symbol>, i: nat): nat
    requires i <= |s|
  {
    if i == 0 then 0 else Marker(s, i - 1) + |s[i - 1].name| + 1
  }

  /** The names of the first `i` symbols. */
  function Names(s: seq<Symbol>, i: nat): (w: seq<Byte>)
    requires i <= |s|
    ensures |w| == Marker(s, i)
  {
    if i == 0 then [] else Names(s, i - 1) + (s[i - 1].name + [0])
  }

  /** The tables hold the symbols `s`, in this order. */
  ghost predicate Holds(t: Tables, s: seq<Symbol>) {
    && |t.offsets| == |s| && |t.markers| == |s| + 1 && t.names == Names(s, |s|)
    && (forall i {:trigger t.offsets[i]} :: 0 <= i < |s| ==> t.offsets[i] == s[i].addr)
    && (forall i {:trigger t.markers[i]} :: 0 <= i <= |s| ==> t.markers[i] == Marker(s, i))
  }

  lemma {:induction false} NamesGrow(s: seq<Symbol>, i: nat, n: nat)
    requires i < n <= |s|
    ensures Marker(s, i) <= Marker(s, i + 1) <= Marker(s, n)
    ensures Names(s, n)[Marker(s, i)..Marker(s, i + 1)] == s[i].name + [0]
    decreases n
  {
    var w, v, a, b := Names(s, n - 1), s[n - 1].name + [0], Marker(s, i), Marker(s, i + 1);
    if i + 1 < n {
      NamesGrow(s, i, n - 1);
      assert (w + v)[a..b] == w[a..b];
    } else {
      assert (w + v)[a..b] == v;
    }
  }

  method Insert(s: seq<Symbol>, x: Symbol) returns (r: seq<Symbol>)
    requires Sorted(s)
    ensures Sorted(r) && multiset(r) == multiset(s) + multiset{x}
  {
    var k := |s|;
    while k > 0 && s[k - 1].addr > x.addr
      invariant 0 <= k <= |s| && forall j {:trigger s[j]} :: k <= j < |s| ==> s[j].addr > x.addr
    {
      k := k - 1;
    }
    r := s[..k] + [x] + s[k..];
    Inserted(s, k, x);
  }

  lemma {:induction false} Inserted(s: seq<Symbol>, k: nat, x: Symbol)
    requires Sorted(s) && k <= |s| && (k > 0 ==> s[k - 1].addr <= x.addr)
    requires forall j {:trigger s[j]} :: k <= j < |s| ==> s[j].addr > x.addr
    ensures Sorted(s[..k] + [x] + s[k..]) && multiset(s[..k] + [x] + s[k..]) == multiset(s) + multiset{x}
  {
    assert s == s[..k] + s[k..];
    InsertedAll(s[..k], s[k..], x);
    assert forall j {:trigger s[j]} :: 0 <= j < k ==> s[j].addr <= x.addr;
    InsertedSorted(s[..k], s[k..], x);
  }

  lemma {:induction false} InsertedAll(a: seq<Symbol>, b: seq<Symbol>, x: Symbol)
    ensures multiset(a + [x] + b) == multiset(a + b) + multiset{x}
  {
  }

  lemma {:induction false} InsertedSorted(a: seq<Symbol>, b: seq<Symbol>, x: Symbol)
    requires Sorted(a) && Sorted(b)
    requires (forall i {:trigger a[i]} :: 0 <= i < |a| ==> a[i].addr <= x.addr)
    requires (forall i {:trigger b[i]} :: 0 <= i < |b| ==> x.addr < b[i].addr)
    ensures Sorted(a + [x] + b)
  {
    var r := a + [x] + b;
    forall i, j {:trigger r[i], r[j]} | 0 <= i < j < |r|
      ensures r[i].addr <= r[j].addr
    {
      assert r[i] == if i < |a| then a[i] else if i == |a| then x else b[i - |a| - 1];
      assert r[j] == if j < |a| then a[j] else if j == |a| then x else b[j - |a| - 1];
    }
  }

  method SortByAddr(symbols: seq<Symbol>) returns (s: seq<Symbol>)
    ensures Sorted(s) && multiset(s) == multiset(symbols)
  {
    s := [];
    for i := 0 to |symbols|
      invariant Sorted(s) && multiset(s) == multiset(symbols[..i])
    {
      s := Insert(s, symbols[i]);
      assert symbols[..i + 1] == symbols[..i] + [symbols[i]];
    }
    assert symbols[..|symbols|] == symbols;
  }

  /** The tables hold the symbols in some order by address. */
  ghost predicate Generated(t: Tables, symbols: seq<Symbol>) {
    exists s {:trigger Holds(t, s)} :: Sorted(s) && multiset(s) == multiset(symbols) && Holds(t, s)
  }

  /** Emits the tables for the symbols, sorted by address. */
  method Generate(symbols: seq<Symbol>) returns (t: Tables)
    ensures Generated(t, symbols)
  {
    var s := SortByAddr(symbols);
    var offsets: seq<nat>, markers: seq<nat>, names: seq<Byte>, acc := [], [0], [], 0;
    for i := 0 to |s|
      invariant |offsets| == i && forall j {:trigger offsets[j]} :: 0 <= j < i ==> offsets[j] == s[j].addr
    {
      offsets := offsets + [s[i].addr];
    }
    for i := 0 to |s|
      invariant acc == Marker(s, i) && |markers| == i + 1
      invariant forall j {:trigger markers[j]} :: 0 <= j <= i ==> markers[j] == Marker(s, j)
    {
      acc := acc + |s[i].name| + 1;
      markers := markers + [acc];
    }
    for i := 0 to |s|
      invariant names == Names(s, i)
    {
      names := names + (s[i].name + [0]);
    }
    t := Tables(offsets, markers, names);
    assert Holds(t, s);
  }

  /** The first pair of neighbours that encloses `pc`. */
  method Lookup(offsets: seq<nat>, pc: nat) returns (r: Option<(nat, nat)>)
    ensures r.Some? ==> r.value.0 + 1 < |offsets| && offsets[r.value.0] == r.value.1 <= pc < offsets[r.value.0 + 1]
    ensures r.Some? ==> forall i {:trigger offsets[i]} :: 0 <= i < r.value.0 ==> !(offsets[i] <= pc < offsets[i + 1])
    ensures r.None? ==> forall i {:trigger offsets[i]} :: 0 <= i < |offsets| - 1 ==>
        !(offsets[i] <= pc < offsets[i + 1])
  {
    var i := 0;
    while i + 1 < |offsets|
      invariant forall j {:trigger offsets[j]} :: 0 <= j < i && j < |offsets| - 1 ==>
          !(offsets[j] <= pc < offsets[j + 1])
    {
      if offsets[i] <= pc < offsets[i + 1] {
        return Some((i, offsets[i]));
      }
      i := i + 1;
    }
    return None;
  }

  /** The symbol that owns `pc` in the tables: the last one not above it, unless none is above it. */
  ghost predicate Owns(s: seq<Symbol>, k: nat, pc: nat) {
    && k < |s| && s[k].addr <= pc
    && k + 1 < |s| && pc < s[k + 1].addr
  }

  /** The name, terminator included, and offset of the symbol that owns `pc` in the order of the tables;
      only the first `n` markers are ever read. */
  method ResolveIn(t: Tables, ghost s: seq<Symbol>, pc: nat) returns (r: Option<(seq<Byte>, nat)>)
    requires Holds(t, s)
    ensures r.None? <==> forall k: nat {:trigger Owns(s, k, pc)} :: !Owns(s, k, pc)
    ensures r.Some? ==> exists k: nat {:trigger Owns(s, k, pc)} ::
              Owns(s, k, pc) && r.value == (s[k].name + [0], pc - s[k].addr)
  {
    var n := |t.offsets|;
    var markers := t.markers[..n];
    var found := Lookup(t.offsets, pc);
    if found.None? {
      forall k: nat {:trigger Owns(s, k, pc)}
        ensures !Owns(s, k, pc)
      {
        assert k + 1 < n ==> t.offsets[k] == s[k].addr && t.offsets[k + 1] == s[k + 1].addr;
      }
      return None;
    }
    var (i, base) := found.value;
    NamesGrow(s, i, |s|);
    assert t.offsets[i + 1] == s[i + 1].addr;
    assert markers[i] == t.markers[i] && markers[i + 1] == t.markers[i + 1];
    assert Owns(s, i, pc);
    var name := t.names[markers[i]..markers[i] + (markers[i + 1] - markers[i])];
    return Some((name, pc - base));
  }

  /** In terms of the symbols alone: the owner has the highest address not above `pc` and, among equal
      addresses, is the last in the table; there is one exactly when some symbol is not above `pc` and
      another one is. */
  lemma {:induction false} OwnerIsNearest(s: seq<Symbol>, pc: nat)
    requires Sorted(s)
    ensures forall k: nat, j: nat {:trigger Owns(s, k, pc), s[j]} :: Owns(s, k, pc) && j < |s| && s[j].addr <= pc ==>
        j <= k && s[j].addr <= s[k].addr
    ensures (exists k: nat :: Owns(s, k, pc)) <==>
            (exists x :: x in s && x.addr <= pc) && (exists x :: x in s && pc < x.addr)
  {
    if lo :| lo in s && lo.addr <= pc {
      if hi :| hi in s && pc < hi.addr {
        var i :| 0 <= i < |s| && s[i] == lo;
        var j :| 0 <= j < |s| && s[j] == hi;
        var k: nat := i;
        while s[k + 1].addr <= pc
          invariant k < j && s[k].addr <= pc
          decreases j - k
        {
          k := k + 1;
        }
        assert Owns(s, k, pc);
      }
    }
  }

  /** No symbol lies between `x` and `pc`. */
  predicate Nearest(symbols: seq<Symbol>, x: Symbol, pc: nat) {
    x in symbols && x.addr <= pc && forall y :: y in symbols && y.addr <= pc ==> y.addr <= x.addr
  }

  /** Generator and consumer agree: on tables generated from `symbols` the result is the terminated name
      of a symbol nearest below `pc` and the distance to it; there is none exactly when no symbol is at or
      below `pc`, or none is above it. */
  method Resolve(t: Tables, ghost symbols: seq<Symbol>, pc: nat) returns (r: Option<(seq<Byte>, nat)>)
    requires Generated(t, symbols)
    ensures r.Some? <==> (exists x :: x in symbols && x.addr <= pc) && (exists x :: x in symbols && pc < x.addr)
    ensures r.Some? ==> exists x :: Nearest(symbols, x, pc) && r.value == (x.name + [0], pc - x.addr)
  {
    ghost var s: seq<Symbol> :| Sorted(s) && multiset(s) == multiset(symbols) && Holds(t, s);
    r := ResolveIn(t, s, pc);
    SameMembers(s, symbols);
    OwnerIsNearest(s, pc);
    if r.Some? {
      ghost var k: nat :| Owns(s, k, pc) && r.value == (s[k].name + [0], pc - s[k].addr);
      OwnerNearest(s, k, pc);
      assert Nearest(symbols, s[k], pc);
    }
  }

  lemma {:induction false} SameMembers(s: seq<Symbol>, symbols: seq<Symbol>)
    requires multiset(s) == multiset(symbols)
    ensures forall x {:trigger x in symbols} {:trigger x in s} :: x in s <==> x in symbols
  {
    forall x {:trigger x in symbols} {:trigger x in s}
      ensures x in s <==> x in symbols
    {
      assert x in s <==> x in multiset(s);
      assert x in symbols <==> x in multiset(symbols);
    }
  }

  lemma {:induction false} OwnerNearest(s: seq<Symbol>, k: nat, pc: nat)
    requires Sorted(s) && Owns(s, k, pc)
    ensures Nearest(s, s[k], pc)
  {
    OwnerIsNearest(s, pc);
  }
}
