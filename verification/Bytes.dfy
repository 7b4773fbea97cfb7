/** Byte strings as the parsers see them: a slice is a position in a block it runs to the end of. */
module Bytes {
  type Byte = x: int | 0 <= x < 256

  /** `w` lies in `b` from `pos` on. */
  predicate At(b: seq<Byte>, pos: nat, w: seq<Byte>) {
    pos + |w| <= |b| && b[pos..pos + |w|] == w
  }

  lemma {:induction false} AtSplit(b: seq<Byte>, pos: nat, u: seq<Byte>, v: seq<Byte>)
    requires At(b, pos, u + v)
    ensures At(b, pos, u) && At(b, pos + |u|, v)
  {
    var s := b[pos..pos + |u + v|];
    assert b[pos..pos + |u|] == s[..|u|] == u;
    assert b[pos + |u|..pos + |u| + |v|] == s[|u|..] == v;
  }

  lemma {:induction false} AtIndex(b: seq<Byte>, pos: nat, w: seq<Byte>, i: nat)
    requires At(b, pos, w) && i < |w|
    ensures b[pos + i] == w[i]
  {
    assert b[pos..pos + |w|][i] == b[pos + i];
  }

  function Zeros(n: nat): (s: seq<Byte>)
    ensures |s| == n && forall i :: 0 <= i < n ==> s[i] == 0
  {
    seq(n, _ => 0)
  }

  /** The first zero byte from `pos` on, or the end of the block. */
  function FindNul(b: seq<Byte>, pos: nat): (e: nat)
    requires pos <= |b|
    ensures pos <= e <= |b| && (e < |b| ==> b[e] == 0)
    ensures forall i :: pos <= i < e ==> b[i] != 0
    decreases |b| - pos
  {
    if pos == |b| || b[pos] == 0 then pos else FindNul(b, pos + 1)
  }

  predicate NoNul(s: seq<Byte>) {
    forall i :: 0 <= i < |s| ==> s[i] != 0
  }

  lemma {:induction false} FindNulIs(b: seq<Byte>, pos: nat, name: seq<Byte>)
    requires NoNul(name) && pos + |name| < |b| && b[pos..pos + |name|] == name && b[pos + |name|] == 0
    ensures FindNul(b, pos) == pos + |name|
  {
    assert forall j {:trigger b[j]} :: pos <= j < pos + |name| ==> b[j] == b[pos..pos + |name|][j - pos];
  }

  /** A zero-terminated string is found up to its terminator. */
  lemma {:induction false} FindName(b: seq<Byte>, pos: nat, name: seq<Byte>)
    requires NoNul(name) && At(b, pos, name + [0])
    ensures FindNul(b, pos) == pos + |name| && b[pos..pos + |name|] == name
  {
    AtSplit(b, pos, name, [0]);
    AtIndex(b, pos + |name|, [0], 0);
    FindNulIs(b, pos, name);
  }

  /** The multiple of 4 at or above `n`. */
  function Pad4(n: nat): (r: nat)
    ensures n <= r < n + 4 && r % 4 == 0
  {
    (n + 3) / 4 * 4
  }

  /** `s` and zero bytes up to a multiple of 4. */
  function Padded(s: seq<Byte>): (w: seq<Byte>)
    ensures |w| == Pad4(|s|)
  {
    s + Zeros(Pad4(|s|) - |s|)
  }

  lemma {:induction false} PaddedAt(b: seq<Byte>, pos: nat, w: seq<Byte>)
    requires At(b, pos, Padded(w))
    ensures At(b, pos, w) && pos + Pad4(|w|) <= |b|
  {
    AtSplit(b, pos, w, Zeros(Pad4(|w|) - |w|));
  }

  function U32(a: Byte, b: Byte, c: Byte, d: Byte): (r: nat)
    ensures r < 0x1_0000_0000
  {
    ((a * 256 + b) * 256 + c) * 256 + d
  }

  /** Four bytes, most significant first. */
  function Be32(v: nat): (w: seq<Byte>)
    requires v < 0x1_0000_0000
    ensures |w| == 4 && U32(w[0], w[1], w[2], w[3]) == v
  {
    var x, y := v / 256, v / 256 / 256;
    [y / 256, y % 256, x % 256, v % 256]
  }

  function Be32At(b: seq<Byte>, pos: nat): (r: nat)
    requires pos + 4 <= |b|
    ensures r < 0x1_0000_0000
  {
    U32(b[pos], b[pos + 1], b[pos + 2], b[pos + 3])
  }

  lemma {:induction false} Be32RoundTrip(b: seq<Byte>, pos: nat, v: nat)
    requires v < 0x1_0000_0000 && At(b, pos, Be32(v))
    ensures Be32At(b, pos) == v
  {
    forall i {:trigger b[pos + i]} | 0 <= i < 4
      ensures b[pos + i] == Be32(v)[i]
    {
      AtIndex(b, pos, Be32(v), i);
    }
    assert b[pos + 0] == b[pos];
  }

  predicate Continuation(s: seq<Byte>, i: nat) {
    i < |s| && 0x80 <= s[i] < 0xc0
  }

  /** Well-formed UTF-8: no overlong form, no surrogate, nothing above U+10FFFF. */
  predicate Utf8(s: seq<Byte>) {
    if s == [] then true
    else if s[0] < 0x80 then Utf8(s[1..])
    else if 0xc2 <= s[0] <= 0xdf then Continuation(s, 1) && Utf8(s[2..])
    else if 0xe0 <= s[0] <= 0xef then
      && Continuation(s, 1) && Continuation(s, 2) && (s[0] == 0xe0 ==> 0xa0 <= s[1]) && (s[0] == 0xed ==> s[1] < 0xa0)
      && Utf8(s[3..])
    else if 0xf0 <= s[0] <= 0xf4 then
      && Continuation(s, 1) && Continuation(s, 2) && Continuation(s, 3)
      && (s[0] == 0xf0 ==> 0x90 <= s[1]) && (s[0] == 0xf4 ==> s[1] < 0x90)
      && Utf8(s[4..])
    else false
  }

  /** The characters of Unicode. */
  predicate Scalar(c: nat) { c < 0xd800 || 0xe000 <= c < 0x11_0000 }

  /** The bytes that UTF-8 has for a character. */
  function EncodeChar(c: nat): seq<Byte>
    requires Scalar(c)
  {
    if c < 0x80 then [c]
    else if c < 0x800 then [0xc0 + c / 64, 0x80 + c % 64]
    else if c < 0x1_0000 then [0xe0 + c / 4096, 0x80 + c / 64 % 64, 0x80 + c % 64]
    else [0xf0 + c / 262144, 0x80 + c / 4096 % 64, 0x80 + c / 64 % 64, 0x80 + c % 64]
  }

  function EncodeText(cs: seq<nat>): seq<Byte>
    requires forall i :: 0 <= i < |cs| ==> Scalar(cs[i])
  {
    if cs == [] then [] else EncodeChar(cs[0]) + EncodeText(cs[1..])
  }

  lemma {:induction false} EncodedChar(c: nat, rest: seq<Byte>)
    requires Scalar(c)
    ensures Utf8(EncodeChar(c) + rest) <==> Utf8(rest)
  {
    var s := EncodeChar(c) + rest;
    assert s[|EncodeChar(c)|..] == rest;
    if c >= 0x1_0000 {
      HighChar(c);
    }
  }

  lemma {:induction false} HighChar(c: nat)
    requires 0x1_0000 <= c < 0x11_0000
    ensures c / 262144 <= 4 && (c / 262144 == 0 ==> 16 <= c / 4096 % 64) && (c / 262144 == 4 ==> c / 4096 % 64 < 16)
  {
    assert c / 4096 / 64 == c / 262144;
  }

  lemma {:induction false} EncodedText(cs: seq<nat>)
    requires forall i :: 0 <= i < |cs| ==> Scalar(cs[i])
    ensures Utf8(EncodeText(cs))
  {
    if cs != [] {
      EncodedText(cs[1..]);
      EncodedChar(cs[0], EncodeText(cs[1..]));
    }
  }

  /** The character a string begins with. */
  lemma {:induction false} FirstChar(s: seq<Byte>) returns (c: nat, rest: seq<Byte>)
    requires s != [] && Utf8(s)
    ensures Scalar(c) && s == EncodeChar(c) + rest && Utf8(rest)
  {
    if s[0] < 0x80 {
      c, rest := s[0], s[1..];
    } else if s[0] < 0xe0 {
      c, rest := TwoBytes(s);
    } else if s[0] < 0xf0 {
      c, rest := ThreeBytes(s);
    } else {
      c, rest := FourBytes(s);
    }
  }

  lemma {:induction false} Sixes(a: nat, x: nat, y: nat, z: nat, c: nat)
    requires x < 64 && y < 64 && z < 64 && c == ((a * 64 + x) * 64 + y) * 64 + z
    ensures c % 64 == z && c / 64 == (a * 64 + x) * 64 + y && c / 64 % 64 == y
    ensures c / 4096 == a * 64 + x && c / 4096 % 64 == x && c / 262144 == a
  {
    assert c / 64 / 64 == c / 4096 && c / 4096 / 64 == c / 262144;
  }

  lemma {:induction false} TwoBytes(s: seq<Byte>) returns (c: nat, rest: seq<Byte>)
    requires s != [] && Utf8(s) && 0x80 <= s[0] < 0xe0
    ensures Scalar(c) && s == EncodeChar(c) + rest && Utf8(rest)
  {
    var w: nat, x: nat := s[0] - 0xc0, s[1] - 0x80;
    c, rest := w * 64 + x, s[2..];
    assert EncodeChar(c) == s[..2];
  }

  lemma {:induction false} ThreeBytes(s: seq<Byte>) returns (c: nat, rest: seq<Byte>)
    requires s != [] && Utf8(s) && 0xe0 <= s[0] < 0xf0
    ensures Scalar(c) && s == EncodeChar(c) + rest && Utf8(rest)
  {
    var w: nat, x: nat, y: nat := s[0] - 0xe0, s[1] - 0x80, s[2] - 0x80;
    c, rest := ((0 * 64 + w) * 64 + x) * 64 + y, s[3..];
    Sixes(0, w, x, y, c);
    assert EncodeChar(c) == s[..3];
  }

  lemma {:induction false} FourBytes(s: seq<Byte>) returns (c: nat, rest: seq<Byte>)
    requires s != [] && Utf8(s) && 0xf0 <= s[0]
    ensures Scalar(c) && s == EncodeChar(c) + rest && Utf8(rest)
  {
    var w: nat, x: nat, y: nat, z: nat := s[0] - 0xf0, s[1] - 0x80, s[2] - 0x80, s[3] - 0x80;
    c, rest := ((w * 64 + x) * 64 + y) * 64 + z, s[4..];
    Sixes(w, x, y, z, c);
    assert EncodeChar(c) == s[..4];
  }

  /** A byte string is UTF-8 if and only if it spells some characters. */
  lemma {:induction false} Utf8Iff(s: seq<Byte>)
    ensures Utf8(s) <==> exists cs: seq<nat> :: (forall i :: 0 <= i < |cs| ==> Scalar(cs[i])) && EncodeText(cs) == s
    decreases |s|
  {
    if Utf8(s) {
      var cs := Decoded(s);
    }
    forall cs: seq<nat> | (forall i :: 0 <= i < |cs| ==> Scalar(cs[i])) && EncodeText(cs) == s
      ensures Utf8(s)
    {
      EncodedText(cs);
    }
  }

  lemma {:induction false} Decoded(s: seq<Byte>) returns (cs: seq<nat>)
    requires Utf8(s)
    ensures (forall i :: 0 <= i < |cs| ==> Scalar(cs[i])) && EncodeText(cs) == s
    decreases |s|
  {
    if s == [] {
      return [];
    }
    var c, rest := FirstChar(s);
    var more := Decoded(rest);
    cs := [c] + more;
    assert cs[1..] == more;
  }
}
