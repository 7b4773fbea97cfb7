/** Virtual and physical addresses: canonical form, page-number digits, translation. */
module Addr {
  import opened Paging
  import opened Arith
  import opened Wrappers

  /** Virtual addresses are translated modulo this. */
  function VaLimit(m: Mode): nat { if m.Sv39? then 0x80_0000_0000 else 0x1_0000_0000_0000 }

  const WORD: nat := 0x1_0000_0000_0000_0000

  predicate Canonical(m: Mode, a: nat) {
    a < VaLimit(m) / 2 || WORD - VaLimit(m) / 2 <= a < WORD
  }

  /** `VirtAddr::new_truncated`: the sign extension of the translated bits. */
  function NewTruncated(m: Mode, a: nat): nat {
    var low := a % VaLimit(m);
    if low < VaLimit(m) / 2 then low else WORD - VaLimit(m) + low
  }

  /** `VirtAddr::try_new`, by the value of the bits from the sign bit up. */
  function TryNew(m: Mode, a: nat): Option<nat>
    requires a < WORD
  {
    var top := if m.Sv39? then a / 0x40_0000_0000 else a / 0x8000_0000_0000;
    if top == 0 || top == (if m.Sv39? then 0x3ff_ffff else 0x1_ffff) then Some(a)
    else if top == 1 then Some(NewTruncated(m, a))
    else None
  }

  /** Accepted addresses are canonical and keep their translated bits; the others have data
      above bit 38 (or 47) that is not a sign extension. */
  lemma {:induction false} TryNewCanonical(m: Mode, a: nat)
    requires a < WORD
    ensures TryNew(m, a).Some? <==> a < VaLimit(m) || Canonical(m, a)
    ensures TryNew(m, a).Some? ==> Canonical(m, TryNew(m, a).value) && TryNew(m, a).value % VaLimit(m) == a % VaLimit(m)
    ensures Canonical(m, a) ==> TryNew(m, a) == Some(a)
  {
    TruncatedKeeps(m, a);
    match m
    case Sv39 =>
    case Sv48 =>
  }

  lemma {:induction false} TruncatedKeeps(m: Mode, a: nat)
    ensures Canonical(m, NewTruncated(m, a)) && NewTruncated(m, a) % VaLimit(m) == a % VaLimit(m)
  {
    var low := a % VaLimit(m);
    match m
    case Sv39 => assert WORD - VaLimit(m) + low == 0x1ff_ffff * VaLimit(m) + low;
    case Sv48 => assert WORD - VaLimit(m) + low == 0xffff * VaLimit(m) + low;
  }

  /** The `k` low base-512 digits of `n`. */
  function Digits(n: nat, k: nat): (v: Vpn)
    ensures |v| == k
  {
    if k == 0 then [] else [n % 512] + Digits(n / 512, k - 1)
  }

  function VpnOf(m: Mode, va: nat): (v: Vpn)
    ensures |v| == m.Levels()
  {
    Digits(va / 4096, m.Levels())
  }

  /** The digits are the fields `vpn0` to `vpn3`, shifts and masks of the address. */
  lemma {:induction false} VpnFields(m: Mode, va: nat)
    ensures VpnOf(m, va)[0] == va / 0x1000 % 512
    ensures VpnOf(m, va)[1] == va / 0x20_0000 % 512
    ensures VpnOf(m, va)[2] == va / 0x4000_0000 % 512
    ensures m.Sv48? ==> VpnOf(m, va)[3] == va / 0x80_0000_0000 % 512
  {
    var n, k := va / 4096, m.Levels();
    assert Digits(n / 512, k - 1) == [n / 512 % 512] + Digits(n / 512 / 512, k - 2);
    assert Digits(n / 512 / 512, k - 2) == [n / 512 / 512 % 512] + Digits(n / 512 / 512 / 512, k - 3);
    assert m.Sv48? ==>
             Digits(n / 512 / 512 / 512, 1) == [n / 512 / 512 / 512 % 512] + Digits(n / 512 / 512 / 512 / 512, 0);
    assert va / 0x20_0000 == n / 512 && va / 0x4000_0000 == n / 512 / 512 && va / 0x80_0000_0000 == n / 512 / 512 / 512;
  }

  /** Bytes covered by an entry of level `l`. */
  function Size(l: nat): (n: nat)
    ensures n >= 1
  {
    4096 * Span(l)
  }

  lemma {:induction false} Sizes()
    ensures Span(0) == 1 && Span(1) == 512 && Span(2) == 0x4_0000 && Span(3) == 0x800_0000 && Span(4) == 0x10_0000_0000
    ensures Size(0) == 0x1000 && Size(1) == 0x20_0000 && Size(2) == 0x4000_0000
    ensures Size(3) == 0x80_0000_0000 && Size(4) == 0x1_0000_0000_0000
  {
    assert Span(1) == 512 * Span(0);
    assert Span(2) == 512 * Span(1);
    assert Span(3) == 512 * Span(2);
    assert Span(4) == 512 * Span(3);
  }

  // ---------- pages and digits ----------

  /** The number with digits `v[..k]`. */
  function Value(v: Vpn, k: nat): nat
    requires k <= |v|
  {
    if k == 0 then 0 else v[0] + 512 * Value(v[1..], k - 1)
  }

  predicate DigitsOf(v: Vpn, n: nat) {
    v == [] || (v[0] == n % 512 && DigitsOf(v[1..], n / 512))
  }

  lemma {:induction false} ValueIsMod(v: Vpn, n: nat, k: nat)
    requires DigitsOf(v, n) && k <= |v|
    ensures Value(v, k) == n % Span(k)
  {
    if k > 0 {
      ValueIsMod(v[1..], n / 512, k - 1);
      Cut(n, Span(k - 1));
    }
  }

  lemma {:induction false} ValueOfDigits(v: Vpn, n: nat)
    requires DigitsOf(v, n) && n < Span(|v|)
    ensures Value(v, |v|) == n
  {
    if v != [] {
      ValueOfDigits(v[1..], n / 512);
    }
  }

  lemma {:induction false} DigitsMod(v: Vpn, n: nat)
    requires DigitsOf(v, n)
    ensures DigitsOf(v, n % Span(|v|))
  {
    if v != [] {
      Cut(n, Span(|v| - 1));
      DigitsMod(v[1..], n / 512);
    }
  }

  lemma {:induction false} DigitsUnique(v: Vpn, w: Vpn, n: nat)
    requires DigitsOf(v, n) && DigitsOf(w, n) && |v| == |w|
    ensures v == w
  {
    if v != [] {
      DigitsUnique(v[1..], w[1..], n / 512);
      assert v == [v[0]] + v[1..] && w == [w[0]] + w[1..];
    }
  }

  lemma {:induction false} DigitsAre(n: nat, k: nat)
    ensures DigitsOf(Digits(n, k), n)
  {
    if k > 0 {
      DigitsAre(n / 512, k - 1);
      assert Digits(n, k)[1..] == Digits(n / 512, k - 1);
    }
  }

  /** Number, modulo the address space, of the page of level `k` that holds `a`. */
  function Page(m: Mode, a: nat, k: nat): nat {
    if k == 0 then a % VaLimit(m) / 4096 else Page(m, a, k - 1) / 512
  }

  lemma {:induction false} PageLow(m: Mode, a: nat)
    ensures a % VaLimit(m) / 4096 == a / 4096 % Span(m.Levels())
  {
    Sizes();
    var q, r := a / VaLimit(m), a % VaLimit(m);
    assert a == q * VaLimit(m) + r;
    match m
    case Sv39 => assert a / 0x1000 == q * 0x800_0000 + r / 0x1000;
    case Sv48 => assert a / 0x1000 == q * 0x10_0000_0000 + r / 0x1000;
  }

  lemma {:induction false} PageDigits(m: Mode, a: nat, k: nat)
    requires k <= m.Levels()
    ensures DigitsOf(VpnOf(m, a)[k..], Page(m, a, k)) && Page(m, a, k) < Span(m.Levels() - k)
  {
    var v := VpnOf(m, a);
    if k == 0 {
      PageLow(m, a);
      DigitsAre(a / 4096, m.Levels());
      DigitsMod(v, a / 4096);
      assert v[0..] == v;
    } else {
      PageDigits(m, a, k - 1);
      assert v[k - 1..][1..] == v[k..];
    }
  }

  /** Two addresses lie in one page of level `k` exactly when their digits from `k` up agree. */
  lemma {:induction false} SamePage(m: Mode, a: nat, b: nat, k: nat)
    requires k <= m.Levels()
    ensures VpnOf(m, a)[k..] == VpnOf(m, b)[k..] <==> Page(m, a, k) == Page(m, b, k)
  {
    var v, w := VpnOf(m, a)[k..], VpnOf(m, b)[k..];
    PageDigits(m, a, k);
    PageDigits(m, b, k);
    ValueOfDigits(v, Page(m, a, k));
    ValueOfDigits(w, Page(m, b, k));
    if Page(m, a, k) == Page(m, b, k) {
      DigitsUnique(v, w, Page(m, a, k));
    }
  }

  /** Number of the page of level `k` with digits `w`. */
  function PageNo(w: Vpn, k: nat): nat
    requires k <= |w|
  {
    Value(w[k..], |w| - k)
  }

  lemma {:induction false} AlignedFrame(pa: nat, l: nat)
    requires pa % Size(l) == 0
    ensures pa % 4096 == 0 && pa / 4096 % Span(l) == 0
  {
    Scale(pa, Span(l));
  }

  lemma {:induction false} PageNoOf(m: Mode, a: nat, k: nat)
    requires k <= m.Levels()
    ensures PageNo(VpnOf(m, a), k) == Page(m, a, k) < Span(m.Levels() - k)
  {
    PageDigits(m, a, k);
    var v := VpnOf(m, a)[k..];
    assert |v| == m.Levels() - k;
    ValueOfDigits(v, Page(m, a, k));
  }

  lemma {:induction false} ValueInjective(v: Vpn, w: Vpn)
    requires |v| == |w| && Value(v, |v|) == Value(w, |w|)
    ensures v == w
  {
    if v != [] {
      var a, b := Value(v[1..], |v| - 1), Value(w[1..], |w| - 1);
      assert v[0] + 512 * a == w[0] + 512 * b;
      assert a == b;
      ValueInjective(v[1..], w[1..]);
      assert v == [v[0]] + v[1..] && w == [w[0]] + w[1..];
    }
  }

  lemma {:induction false} PageNoSame(v: Vpn, w: Vpn, k: nat)
    requires k <= |v| == |w|
    ensures PageNo(v, k) == PageNo(w, k) <==> v[k..] == w[k..]
  {
    if PageNo(v, k) == PageNo(w, k) {
      ValueInjective(v[k..], w[k..]);
    }
  }

  lemma {:induction false} PageAdd(m: Mode, a: nat, i: nat, k: nat)
    requires k <= m.Levels() && Page(m, a, k) + i < Span(m.Levels() - k)
    ensures Page(m, a + i * Size(k), k) == Page(m, a, k) + i
    decreases k
  {
    Sizes();
    if k == 0 {
      var q, r := a / VaLimit(m), a % VaLimit(m);
      assert a + i * Size(0) == q * VaLimit(m) + (r + 4096 * i);
      DivModUnique(a + i * Size(0), VaLimit(m), q, r + 4096 * i);
    } else {
      assert Span(m.Levels() - k + 1) == 512 * Span(m.Levels() - k);
      PageAdd(m, a, 512 * i, k - 1);
      assert i * Size(k) == (512 * i) * Size(k - 1);
    }
  }

  lemma {:induction false} PageBound(m: Mode, a: nat, k: nat)
    ensures a % VaLimit(m) < Times(Page(m, a, k) + 1, Size(k))
  {
    if k == 0 {
      TimesIs(Page(m, a, 0) + 1, Size(0));
    } else {
      PageBound(m, a, k - 1);
      var p, q := Page(m, a, k - 1), Page(m, a, k);
      TimesScale(q + 1, Size(k - 1));
      TimesSum(p + 1, 512 * (q + 1) - (p + 1), Size(k - 1));
    }
  }

  lemma {:induction false} PagesFill(m: Mode, n: nat, k: nat)
    requires k < m.Levels() && n <= Span(m.Levels() - k)
    ensures Times(n, Size(k)) <= VaLimit(m)
  {
    Sizes();
    TimesIs(n, Size(k));
    match k
    case 0 =>
    case 1 =>
    case 2 =>
    case 3 =>
  }

  /** `VirtAddr` addition, where it does not panic. */
  function VirtAdd(m: Mode, a: nat, b: nat): nat
    requires a + b < WORD && TryNew(m, a + b).Some?
  {
    TryNew(m, a + b).value
  }

  lemma {:induction false} NoPanic(m: Mode, a: nat, d: nat)
    requires Canonical(m, a) && a % VaLimit(m) + d < VaLimit(m)
    ensures a + d < WORD && TryNew(m, a + d).Some?
  {
    SplitHalves(m, a);
    TryNewCanonical(m, a + d);
  }

  lemma {:induction false} TryNewVpn(m: Mode, b: nat)
    requires b < WORD && TryNew(m, b).Some?
    ensures VpnOf(m, TryNew(m, b).value) == VpnOf(m, b)
  {
    var c := TryNew(m, b).value;
    TryNewCanonical(m, b);
    SamePage(m, c, b, 0);
    assert VpnOf(m, c)[0..] == VpnOf(m, c) && VpnOf(m, b)[0..] == VpnOf(m, b);
  }

  lemma {:induction false} VirtAddVpn(m: Mode, a: nat, d: nat)
    requires a + d < WORD && TryNew(m, a + d).Some?
    ensures VpnOf(m, VirtAdd(m, a, d)) == VpnOf(m, a + d)
  {
    TryNewVpn(m, a + d);
  }

  /** Address arithmetic over a range of pages that does not wrap around never panics and keeps
      the digits, even where it passes from the low to the high half of the address space. */
  lemma {:induction false} VirtAddOk(m: Mode, a: nat, i: nat, k: nat)
    requires Canonical(m, a) && k < m.Levels() && Page(m, a, k) + i < Span(m.Levels() - k)
    ensures a + Times(i, Size(k)) < WORD && TryNew(m, a + Times(i, Size(k))).Some?
    ensures VpnOf(m, VirtAdd(m, a, Times(i, Size(k)))) == VpnOf(m, a + Times(i, Size(k)))
  {
    PageBound(m, a, k);
    PagesFill(m, Page(m, a, k) + 1 + i, k);
    TimesSum(Page(m, a, k) + 1, i, Size(k));
    var d := Times(i, Size(k));
    NoPanic(m, a, d);
    VirtAddVpn(m, a, d);
  }

  lemma {:induction false} SplitHalves(m: Mode, a: nat)
    requires Canonical(m, a)
    ensures a == if a < VaLimit(m) / 2 then a % VaLimit(m) else WORD - VaLimit(m) + a % VaLimit(m)
  {
    match m
    case Sv39 => if a >= VaLimit(m) / 2 { DivModUnique(a, VaLimit(m), 0x1ff_ffff, a - 0x1ff_ffff * VaLimit(m)); }
    case Sv48 => if a >= VaLimit(m) / 2 { DivModUnique(a, VaLimit(m), 0xffff, a - 0xffff * VaLimit(m)); }
  }

  lemma {:induction false} PageExact(m: Mode, a: nat, c: nat, z: nat, k: nat)
    requires a % VaLimit(m) == Times(c, Size(k)) + z && z < Size(k)
    ensures Page(m, a, k) == c
    decreases k
  {
    if k == 0 {
      TimesIs(c, Size(0));
    } else {
      var e, z' := Split(z, 512, Size(k - 1)) by { TimesIs(512, Size(k - 1)); }
      TimesScale(c, Size(k - 1));
      TimesSum(512 * c, e, Size(k - 1));
      PageExact(m, a, 512 * c + e, z', k - 1);
    }
  }

  lemma {:induction false} AlignedMod(m: Mode, a: nat, k: nat) returns (c: nat)
    requires k < m.Levels() && a % Size(k) == 0
    ensures a % VaLimit(m) == Times(c, Size(k))
  {
    c := ModMultiple(a, Size(k), Span(m.Levels() - k));
    Sizes();
    match k
    case 0 =>
    case 1 =>
    case 2 =>
    case 3 =>
  }

  function AlignDown(a: nat): nat { a / 4096 * 4096 }

  function AlignUp(a: nat): nat { (a + 4095) / 4096 * 4096 }

  /** Both addresses are canonical and lie in one half of the address space. */
  predicate SameHalf(m: Mode, a: nat, b: nat) {
    (a < VaLimit(m) / 2 && b < VaLimit(m) / 2) ||
      (WORD - VaLimit(m) / 2 <= a < WORD && WORD - VaLimit(m) / 2 <= b < WORD)
  }

  /** Number of 4 KiB pages between the rounded ends of `[va, va + len)`. */
  function PagesMet(va: nat, len: nat): nat {
    (va + len + 4095) / 4096 - va / 4096
  }

  lemma {:induction false} PagesMetOk(m: Mode, va: nat, len: nat)
    requires SameHalf(m, va, AlignUp(va + len))
    ensures AlignDown(va) <= AlignUp(va + len) && (AlignUp(va + len) - AlignDown(va)) / 4096 == PagesMet(va, len)
    ensures Canonical(m, AlignDown(va)) && Page(m, AlignDown(va), 0) == Page(m, va, 0)
    ensures Page(m, va, 0) + PagesMet(va, len) <= Span(m.Levels())
  {
    Sizes();
    SplitHalves(m, va);
    SplitHalves(m, AlignDown(va));
  }

  // ---------- virt_to_phys ----------

  /** The loop that ors the low digits of the address into the frame number of a superpage. */
  function OrLow(ppn: nat, v: Vpn, k: nat): nat
    requires k <= |v|
  {
    if k == 0 then ppn else BitOr(OrLow(ppn, v, k - 1), Shl(v[k - 1], 9 * (k - 1)))
  }

  function VirtToPhys(m: Mode, mem: Frames, root: nat, va: nat): Option<nat>
    requires Ram(m, mem) && root < m.PpnLimit()
  {
    var v := VpnOf(m, va);
    match WalkRoot(m, mem, root, v)
    case Miss => None
    case Hit(_, l, e) => Some(OrLow(e.ppn, v, l) * 4096 + va % 4096)
  }

  lemma {:induction false} ValueTop(v: Vpn, k: nat)
    requires k < |v|
    ensures Value(v, k + 1) == Value(v, k) + Shl(v[k], 9 * k)
  {
    if k > 0 {
      ValueTop(v[1..], k - 1);
      Shl9(v[k], k - 1);
    }
  }

  lemma {:induction false} ZeroDigits(a: nat, v: Vpn, k: nat, l: nat)
    requires k <= |v| && k <= l
    ensures Shr(Shl(a, 9 * l) + Value(v, k), 9 * k) == Shl(a, 9 * (l - k))
  {
    if k > 0 {
      ZeroDigits(a, v[1..], k - 1, l - 1);
      Shl9(a, l - 1);
      Shr9(Shl(a, 9 * (l - 1)) + Value(v[1..], k - 1), v[0], k - 1);
    }
  }

  /** Below `l` zero digits, oring in digits adds them. */
  lemma {:induction false} OrLowSum(a: nat, v: Vpn, k: nat, l: nat)
    requires k <= |v| && k <= l
    ensures OrLow(Shl(a, 9 * l), v, k) == Shl(a, 9 * l) + Value(v, k)
  {
    if k > 0 {
      var j := k - 1;
      OrLowSum(a, v, j, l);
      ZeroDigits(a, v, j, l);
      Shl9(a, l - j - 1);
      OrDigit(Shl(a, 9 * l) + Value(v, j), v[j], j);
      ValueTop(v, j);
    }
  }

  lemma {:induction false} SpanShl(a: nat, l: nat)
    ensures a * Span(l) == Shl(a, 9 * l)
  {
    if l > 0 {
      SpanShl(a, l - 1);
      Shl9(a, l - 1);
      assert a * Span(l) == 512 * (a * Span(l - 1));
    }
  }

  /** `set_ppn` stores the 26 or 44 low bits of a frame number. */
  lemma {:induction false} MaskBits(m: Mode, ppn: nat, k: nat)
    ensures Shr(MaskPpn(m, ppn), k) % 2 == if k < (if m.Sv39? then 26 else 44) then Shr(ppn, k) % 2 else 0
  {
    Sizes();
    SpanShl(1, if m.Sv39? then 3 else 5);
    assert Span(5) == 512 * Span(4);
    assert Shl(1, 27) == 2 * Shl(1, 26) && Shl(1, 45) == 2 * Shl(1, 44);
    LowBits(ppn, if m.Sv39? then 26 else 44, k);
  }

  /** Oring the low digits into an aligned frame number adds the page offset within the leaf. */
  lemma {:induction false} OrLowAdds(m: Mode, va: nat, ppn: nat, l: nat)
    requires l < m.Levels() && ppn % Span(l) == 0
    ensures OrLow(ppn, VpnOf(m, va), l) * 4096 + va % 4096 == ppn * 4096 + va % Size(l)
  {
    var a := ppn / Span(l);
    assert ppn == a * Span(l);
    SpanShl(a, l);
    OrLowSum(a, VpnOf(m, va), l, l);
    DigitsAre(va / 4096, m.Levels());
    ValueIsMod(VpnOf(m, va), va / 4096, l);
    Scale(va, Span(l));
  }
}
