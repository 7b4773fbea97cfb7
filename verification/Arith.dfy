/** Division by page-table radices and bitwise or, on unbounded naturals. */
module Arith {

  lemma {:induction false} DivModUnique(x: nat, s: nat, d: nat, r: nat)
    requires r < s && x == d * s + r
    ensures x / s == d && x % s == r
  {
    var e, n: int := x / s - d, s;
    assert x == (x / s) * s + x % s;
    assert e * n == r - x % s;
    assert e >= 1 ==> e * n >= n;
    assert e <= -1 ==> e * n <= -n;
  }

  lemma {:induction false} Reorder(a: nat, b: nat, c: nat)
    ensures a * (b * c) == b * (a * c) && (a * b) * c == a * (c * b)
  {
  }

  lemma {:induction false} Distribute(a: nat, b: nat, s: nat)
    ensures (a + b) * s == a * s + b * s
  {
  }

  lemma {:induction false} Cut(n: nat, w: nat)
    requires w >= 1
    ensures n % (512 * w) % 512 == n % 512 && n % (512 * w) / 512 == n / 512 % w
  {
    var q, r := Euclid(n, 512 * w);
    CutAt(n, w, 512 * w, q, r);
  }

  lemma {:induction false} Euclid(n: nat, s: nat) returns (q: nat, r: nat)
    requires s >= 1
    ensures n == q * s + r && r < s && n % s == r
  {
    q, r := n / s, n % s;
  }

  lemma {:induction false} CutAt(n: nat, w: nat, s: nat, q: nat, r: nat)
    requires s == 512 * w && n == q * s + r && r < s
    ensures r % 512 == n % 512 && r / 512 == n / 512 % w
  {
    Reorder(q, 512, w);
    CutBy(n, q * w, r);
    DivModUnique(n / 512, w, q, r / 512);
  }

  lemma {:induction false} CutBy(n: nat, p: nat, r: nat)
    requires n == 512 * p + r
    ensures n / 512 == p + r / 512 && n % 512 == r % 512
  {
  }

  lemma {:induction false} SmallMod(x: nat, s: nat)
    requires x < s
    ensures x % s == x && x / s == 0
  {
    DivModUnique(x, s, 0, x);
  }

  lemma {:induction false} Scale(x: nat, s: nat)
    requires s >= 1
    ensures x % (4096 * s) == 4096 * (x / 4096 % s) + x % 4096
  {
    var n := x / 4096;
    var q, r := n / s, n % s;
    var sq := s * q;
    assert n == sq + r;
    assert q * (4096 * s) == 4096 * sq;
    DivModUnique(x, 4096 * s, q, 4096 * r + x % 4096);
  }

  lemma {:induction false} MulLe(a: nat, b: nat, s: nat)
    requires a <= b
    ensures a * s <= b * s
  {
  }

  lemma {:induction false} Multiples(p: nat, i: nat, n: nat, s: nat)
    requires s >= 1 && p % s == 0 && i < n
    ensures (p + i * s) % s == 0 && i * s + s == (i + 1) * s <= n * s
    ensures i * (4096 * s) == 4096 * (i * s)
  {
    MulLe(i + 1, n, s);
    var q, r := p / s, i * s;
    assert p == q * s + 0;
    assert p + r == (q + i) * s + 0;
    DivModUnique(p + r, s, q + i, 0);
  }

  function DivCeil(x: nat, s: nat): nat
    requires s >= 1
  {
    x / s + if x % s == 0 then 0 else 1
  }

  /** Multiplication as repeated addition, which keeps products out of the proofs about ranges. */
  function Times(i: nat, s: nat): nat {
    if i == 0 then 0 else Times(i - 1, s) + s
  }

  lemma {:induction false} TimesIs(i: nat, s: nat)
    ensures Times(i, s) == i * s
  {
    if i > 0 {
      TimesIs(i - 1, s);
    }
  }

  lemma {:induction false} TimesSum(i: nat, j: nat, s: nat)
    ensures Times(i + j, s) == Times(i, s) + Times(j, s)
  {
    if j > 0 {
      TimesSum(i, j - 1, s);
    }
  }

  /** Quotient and remainder of `o` by `s`, below `n * s`. */
  lemma {:induction false} Split(o: nat, n: nat, s: nat) returns (d: nat, z: nat)
    requires o < Times(n, s)
    ensures o == Times(d, s) + z && d < n && z < s
  {
    if o >= Times(n - 1, s) {
      d, z := n - 1, o - Times(n - 1, s);
    } else {
      d, z := Split(o, n - 1, s);
    }
  }

  lemma {:induction false} ModAdd(a: nat, d: nat, z: nat, s: nat)
    requires s >= 1 && a % s == 0 && z < s
    ensures (a + Times(d, s) + z) % s == z
  {
    TimesIs(d, s);
    var q := a / s;
    assert a == q * s;
    assert a + d * s + z == (q + d) * s + z;
    DivModUnique(a + d * s + z, s, q + d, z);
  }

  /** A multiple of `s`, taken modulo a multiple of `s`. */
  lemma {:induction false} ModMultiple(a: nat, s: nat, t: nat) returns (c: nat)
    requires s >= 1 && t >= 1 && a % s == 0
    ensures a % (s * t) == Times(c, s)
  {
    var q := a / s;
    c := q % t;
    TimesIs(c, s);
    ModMultipleAt(a, s, t, s * t, q, q / t, c);
  }

  lemma {:induction false} ModMultipleAt(a: nat, s: nat, t: nat, st: nat, q: nat, e: nat, c: nat)
    requires st == s * t && a == q * s && q == e * t + c && c < t && s >= 1
    ensures a % st == c * s
  {
    Distribute(e * t, c, s);
    Reorder(e, t, s);
    Distribute(c, 1, s);
    MulLe(c + 1, t, s);
    DivModUnique(a, st, e, c * s);
  }

  lemma {:induction false} TimesScale(c: nat, s: nat)
    ensures Times(512 * c, s) == Times(c, 512 * s)
  {
    TimesIs(512 * c, s);
    TimesIs(c, 512 * s);
    assert 512 * c * s == c * (512 * s);
  }

  /** Bitwise or, bit by bit. */
  function BitOr(x: nat, y: nat): nat {
    if x == 0 then y
    else if y == 0 then x
    else (if x % 2 == 1 || y % 2 == 1 then 1 else 0) + 2 * BitOr(x / 2, y / 2)
  }

  predicate NoCommonBits(x: nat, y: nat) {
    x == 0 || y == 0 || (!(x % 2 == 1 && y % 2 == 1) && NoCommonBits(x / 2, y / 2))
  }

  lemma {:induction false} OrIsSum(x: nat, y: nat)
    requires NoCommonBits(x, y)
    ensures BitOr(x, y) == x + y
  {
    if x != 0 && y != 0 {
      OrIsSum(x / 2, y / 2);
    }
  }

  function Shl(x: nat, k: nat): nat {
    if k == 0 then x else 2 * Shl(x, k - 1)
  }

  function Shr(x: nat, k: nat): nat {
    if k == 0 then x else Shr(x / 2, k - 1)
  }

  /** A number shifted left by `k`, and a number of at most `k` bits. */
  lemma {:induction false} HighLow(a: nat, low: nat, k: nat)
    requires Shr(low, k) == 0
    ensures NoCommonBits(Shl(a, k), low)
  {
    if k > 0 {
      HighLow(a, low / 2, k - 1);
    }
  }

  /** Shifting `y` left by `k` meets only the bits of `x` from `k` up. */
  lemma {:induction false} ShiftedApart(x: nat, y: nat, k: nat)
    requires NoCommonBits(Shr(x, k), y)
    ensures NoCommonBits(x, Shl(y, k))
  {
    if k > 0 {
      ShiftedApart(x / 2, y, k - 1);
    }
  }

  lemma {:induction false} ShrSum(x: nat, j: nat, k: nat)
    ensures Shr(x, j + k) == Shr(Shr(x, j), k)
  {
    if j > 0 {
      ShrSum(x / 2, j - 1, k);
    }
  }

  lemma {:induction false} ShlSum(x: nat, j: nat, k: nat)
    ensures Shl(x, j + k) == Shl(Shl(x, k), j)
  {
    if j > 0 {
      ShlSum(x, j - 1, k);
    }
  }

  lemma {:induction false} By3(x: nat)
    ensures Shl(x, 3) == 8 * x && Shr(x, 3) == x / 8
  {
    assert Shl(x, 2) == 2 * Shl(x, 1);
    assert Shr(x / 2, 2) == Shr(x / 2 / 2, 1);
  }

  lemma {:induction false} By9(x: nat)
    ensures Shl(x, 9) == 512 * x && Shr(x, 9) == x / 512
  {
    ShrSum(x, 3, 6);
    ShrSum(x / 8, 3, 3);
    ShlSum(x, 3, 6);
    ShlSum(x, 3, 3);
    By3(x);
    By3(8 * x);
    By3(64 * x);
    By3(x / 8);
    By3(x / 64);
  }

  lemma {:induction false} Shl9(x: nat, j: nat)
    ensures Shl(x, 9 * (j + 1)) == 512 * Shl(x, 9 * j)
  {
    ShlSum(x, 9, 9 * j);
    By9(Shl(x, 9 * j));
  }

  lemma {:induction false} Shr9(q: nat, d: nat, j: nat)
    requires d < 512
    ensures Shr(512 * q + d, 9 * (j + 1)) == Shr(q, 9 * j)
  {
    ShrSum(512 * q + d, 9, 9 * j);
    By9(512 * q + d);
  }

  /** Oring a digit below the lowest set digit of `x` is addition. */
  lemma {:induction false} OrDigit(x: nat, d: nat, j: nat)
    requires d < 512 && Shr(x, 9 * j) % 512 == 0
    ensures BitOr(x, Shl(d, 9 * j)) == x + Shl(d, 9 * j)
  {
    var a := Shr(x, 9 * j) / 512;
    By9(a);
    By9(d);
    HighLow(a, d, 9);
    ShiftedApart(x, d, 9 * j);
    OrIsSum(x, Shl(d, 9 * j));
  }

  predicate PowerOfTwo(n: nat) {
    n == 1 || (n > 1 && n % 2 == 0 && PowerOfTwo(n / 2))
  }

  /** The remainder by a power of two is the low bits. */
  lemma {:induction false} LowBits(x: nat, n: nat, k: nat)
    ensures Shl(1, n) > 0 && Shr(x % Shl(1, n), k) % 2 == if k < n then Shr(x, k) % 2 else 0
    decreases n
  {
    if n == 0 {
      ShrZero(k);
    } else {
      LowBits(x / 2, n - 1, if k > 0 then k - 1 else 0);
      HalfMod(x, Shl(1, n - 1));
    }
  }

  lemma {:induction false} HalfMod(x: nat, s: nat)
    requires s > 0
    ensures x % (2 * s) / 2 == x / 2 % s && x % (2 * s) % 2 == x % 2
  {
    var q, r := x / 2 / s, x / 2 % s;
    assert x / 2 == q * s + r;
    assert x == q * (2 * s) + (2 * r + x % 2);
    DivModUnique(x, 2 * s, q, 2 * r + x % 2);
  }

  lemma {:induction false} ShrZero(k: nat)
    ensures Shr(0, k) == 0
  {
    if k > 0 {
      ShrZero(k - 1);
    }
  }

  lemma {:induction false} ShlPower(k: nat)
    ensures PowerOfTwo(Shl(1, k))
  {
    if k > 0 {
      ShlPower(k - 1);
    }
  }

  /** The powers of two are the shifts of one. */
  lemma {:induction false} PowerOfTwoIs(n: nat)
    ensures PowerOfTwo(n) <==> exists k: nat :: n == Shl(1, k)
  {
    if n > 1 && n % 2 == 0 {
      PowerOfTwoIs(n / 2);
      if k: nat :| n / 2 == Shl(1, k) {
        assert n == Shl(1, k + 1);
      }
      if k: nat :| n == Shl(1, k) {
        assert n / 2 == Shl(1, k - 1);
      }
    } else if n == 1 {
      assert n == Shl(1, 0);
    } else {
      forall k: nat
        ensures n != Shl(1, k)
      {
        ClearLow(0, k);
      }
    }
  }

  /** Clearing the low `k` bits, as alignment masks do, is rounding down to a multiple of `2^k`. */
  lemma {:induction false} ClearLow(x: nat, k: nat)
    ensures Shl(1, k) >= 1 && x - x % Shl(1, k) == Shl(Shr(x, k), k)
  {
    if k > 0 {
      ClearLow(x / 2, k - 1);
      var s, y := Shl(1, k - 1), x / 2;
      var q, r := Euclid(y, s);
      assert x == q * (2 * s) + (2 * r + x % 2) by {
        Reorder(q, 2, s);
      }
      DivModUnique(x, 2 * s, q, 2 * r + x % 2);
    }
  }
}
