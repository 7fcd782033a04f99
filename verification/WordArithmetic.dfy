/**
 The double-word helpers of tinyemu-core/softfp_template.h: the half-word product, the
 bit-by-bit division and the Newton square root, and the packing of words.
 */
module WordArithmetic {
  import opened Wrappers
  import opened Arithmetic
  import opened FloatRounding
  import opened SoftFloat

  // -------------------------------------------------------------- half-word product

  /** The four partial products add up to the product. */
  lemma Partial(h: nat, a1: nat, a0: nat, b1: nat, b0: nat)
    ensures (h * a1 + a0) * (h * b1 + b0) == h * (h * (a1 * b1) + (a0 * b1 + a1 * b0)) + a0 * b0
  {
    assert (h * a1 + a0) * (h * b1 + b0) == h * a1 * (h * b1) + h * a1 * b0 + a0 * (h * b1) + a0 * b0;
    assert h * a1 * (h * b1) == h * (h * (a1 * b1));
    assert h * a1 * b0 == h * (a1 * b0);
    assert a0 * (h * b1) == h * (a0 * b1);
    assert h * (h * (a1 * b1) + (a0 * b1 + a1 * b0)) == h * (h * (a1 * b1)) + h * (a0 * b1) + h * (a1 * b0);
  }

  lemma Carry(h: nat, c: nat, q: nat, r: nat, rest: int)
    requires c == h * q + r
    ensures h * rest + c == h * (rest + q) + r
  {
  }

  lemma Distribute(h: nat, a: int, b: int, c: int, d: int)
    ensures h * (a + b + c + d) == h * a + h * b + h * c + h * d
  {
  }

  /** The carries between the half-word columns. */
  method AddColumns(h: nat, r00: nat, r01: nat, r10: nat, r11: nat) returns (r3: nat, r2: nat, r1: nat, r0: nat)
    requires h > 0
    ensures r0 < h && r1 < h && r2 < h
    ensures h * (h * (h * r3 + r2) + r1) + r0 == h * (h * r11 + (r01 + r10)) + r00
  {
    QuotientFacts(r00, h);
    QuotientFacts(r01, h);
    QuotientFacts(r10, h);
    QuotientFacts(r11, h);
    r0 := r00 % h;
    var c := r00 / h + r01 % h + r10 % h;
    r1 := c % h;
    QuotientFacts(c, h);
    var d := c / h + r01 / h + r10 / h + r11 % h;
    r2 := d % h;
    QuotientFacts(d, h);
    r3 := d / h + r11 / h;
    TopColumns(h, r11, r11 / h, r11 % h, d, d / h, r2, c / h + r01 / h + r10 / h);
    MiddleColumns(h, h * r3 + r2, r11, c / h, r01 / h, r10 / h, c, r1, r00 / h, r01, r10);
    Carry(h, r00, r00 / h, r0, h * r11 + (r01 + r10));
  }

  lemma TopColumns(h: nat, r11: nat, q: nat, m: nat, d: nat, e: nat, r2: nat, carried: nat)
    requires r11 == h * q + m && d == carried + m && d == h * e + r2
    ensures h * (e + q) + r2 == r11 + carried
  {
    Carry(h, d, e, r2, q);
  }

  lemma MiddleColumns(h: nat, top: nat, r11: nat, k: nat, q01: nat, q10: nat, c: nat, r1: nat, q00: nat, r01: nat,
                      r10: nat)
    requires top == r11 + (k + q01 + q10) && c == h * k + r1
    requires c == q00 + (r01 - h * q01) + (r10 - h * q10)
    ensures h * top + r1 == h * r11 + (r01 + r10) + q00
  {
    Distribute(h, r11, k, q01, q10);
  }

  lemma TopDigitFits(h: nat, r3: nat, r2: nat, r1: nat, r0: nat, product: nat)
    requires h > 0 && product < h * h * (h * h) && product == h * (h * (h * r3 + r2) + r1) + r0
    ensures r3 < h
    ensures product == (h * r3 + r2) * (h * h) + (h * r1 + r0)
  {
    var t := h * r3 + r2;
    assert h * (h * t + r1) == t * (h * h) + h * r1;
    if r3 >= h {
      TimesMonotone(h, r3, h);
      assert t >= h * h;
      TimesMonotone(h * h, t, h * h);
    }
  }

  lemma ProductBelow(a: nat, b: nat, w: nat)
    requires a < w && b < w
    ensures a * b < w * w
  {
    ProductLe(a, w - 1, b, w - 1);
    BelowSquare(w);
  }

  lemma TwoDigits(h: nat, hi: nat, lo: nat)
    requires hi < h && lo < h
    ensures h * hi + lo < h * h
  {
    assert h * (hi + 1) == h * hi + h;
    TimesMonotone(hi + 1, h, h);
  }

  /** The portable double-word product; h is 2^(F_SIZE / 2). */
  method MulU(h: nat, a: nat, b: nat) returns (high: nat, low: nat)
    requires h > 0 && a < h * h && b < h * h
    ensures low < h * h && high < h * h && high * (h * h) + low == a * b
  {
    var a0, a1, b0, b1 := a % h, a / h, b % h, b / h;
    QuotientFacts(a, h);
    QuotientFacts(b, h);
    Partial(h, a1, a0, b1, b0);
    var r3, r2, r1, r0 := AddColumns(h, a0 * b0, a0 * b1, a1 * b0, a1 * b1);
    ProductBelow(a, b, h * h);
    TopDigitFits(h, r3, r2, r1, r0, a * b);
    high, low := h * r3 + r2, h * r1 + r0;
    TwoDigits(h, r3, r2);
    TwoDigits(h, r1, r0);
  }

  /** The word mul_sf goes on with: the high word of the half-word product, sticky when the low one is not zero. */
  method ProductByHalves(f: Format, a: Float, b: Float) returns (m: nat)
    requires Supported(f) && Size(f) % 2 == 0 && Finite(f, a) && Finite(f, b) && !IsZero(a) && !IsZero(b)
    ensures m == ProductWord(f, a, b)
  {
    MantissasFit(f, a, b);
    m := StickyProduct(Size(f), ShiftLeft(Normalized(f, a).1, Rnd(f)), ShiftLeft(Normalized(f, b).1, Rnd(f) + 1));
  }

  method StickyProduct(s: nat, x: nat, y: nat) returns (m: nat)
    requires s % 2 == 0 && x < Pow2(s) && y < Pow2(s)
    ensures m == StickyHigh(x * y, s)
  {
    var h := Pow2(s / 2);
    Pow2Add(s / 2, s / 2);
    var high, low := MulU(h, x, y);
    HighWord(x * y, Pow2(s), high, low);
    m := SetSticky(high, low != 0);
  }

  lemma HighWord(product: nat, w: nat, high: nat, low: nat)
    requires low < w && high * w + low == product
    ensures product / w == high && product % w == low
  {
    Commutes(high, w);
    DivModUnique(product, w, high, low);
  }

  lemma MantissasFit(f: Format, a: Float, b: Float)
    requires Supported(f) && Finite(f, a) && Finite(f, b) && !IsZero(a) && !IsZero(b)
    ensures ShiftLeft(Normalized(f, a).1, Rnd(f)) < Pow2(Size(f))
    ensures ShiftLeft(Normalized(f, b).1, Rnd(f) + 1) < Pow2(Size(f))
  {
    NormalizedBounds(f, a);
    NormalizedBounds(f, b);
    ShiftBounds(Normalized(f, a).1, f.mantBits, f.mantBits + 1, Rnd(f));
    ShiftBounds(Normalized(f, b).1, f.mantBits, f.mantBits + 1, Rnd(f) + 1);
    Pow2Monotone(f.mantBits + 1 + Rnd(f), Size(f));
  }

  // ------------------------------------------------------------- bit-by-bit division

  /** After i steps: the dividend's top bits divided, its rest still in the low word. */
  ghost predicate Dividing(s: nat, i: nat, n: nat, b: nat, a1: nat, a0: nat, q: nat, rest: nat) {
    && i <= s && a1 < b && q < Pow2(i) && rest < Pow2(s - i)
    && n == (q * b + a1) * Pow2(s - i) + rest
    && a0 == rest * Pow2(i) + q
  }

  /** The bit shifted out of the low word is the next bit of the dividend. */
  lemma NextBit(s: nat, i: nat, a0: nat, q: nat, rest: nat)
    requires i < s && q < Pow2(i) && rest < Pow2(s - i) && a0 == rest * Pow2(i) + q
    ensures var t := a0 / Pow2(s - 1);
            && 0 <= t <= 1 && rest >= t * Pow2(s - i - 1)
            && 2 * a0 - t * Pow2(s) == (rest - t * Pow2(s - i - 1)) * Pow2(i + 1) + 2 * q
            && 0 <= 2 * a0 - t * Pow2(s) < Pow2(s)
            && rest - t * Pow2(s - i - 1) < Pow2(s - i - 1)
  {
    var k, p := Pow2(s - i - 1), Pow2(i);
    Pow2Add(s - i - 1, i);
    BitOf(k, p, rest, q);
  }

  lemma BitOf(k: nat, p: nat, rest: nat, q: nat)
    requires q < p && rest < 2 * k
    ensures var a, t := rest * p + q, if rest >= k then 1 else 0;
            && k * p > 0 && a / (k * p) == t
            && 2 * a - t * (2 * (k * p)) == (rest - t * k) * (2 * p) + 2 * q
            && 0 <= 2 * a - t * (2 * (k * p)) < 2 * (k * p)
  {
    var t := if rest >= k then 1 else 0;
    var low := rest - t * k;
    FitsBelow(low, k, p, q);
    SplitTop(rest, t, k, low, p);
    DivModUnique(rest * p + q, k * p, t, low * p + q);
    TwiceLow(low, p);
  }

  lemma FitsBelow(low: nat, k: nat, p: nat, q: nat)
    requires low < k && q < p
    ensures low * p + q < k * p
  {
    TimesMonotone(low + 1, k, p);
    assert (low + 1) * p == low * p + p;
  }

  lemma SplitTop(rest: nat, t: nat, k: nat, low: nat, p: nat)
    requires rest == t * k + low && (t == 0 || t == 1)
    ensures rest * p == t * (k * p) + low * p && rest * p == (k * p) * t + low * p
  {
  }

  lemma TwiceLow(low: nat, p: nat)
    ensures low * (2 * p) == 2 * (low * p)
  {
  }

  /** One subtraction step on the running remainder. */
  lemma StepRemainder(n: nat, b: nat, q: nat, a1: nat, t: nat, k: nat, rest: nat, qb: nat, a1': nat)
    requires n == (q * b + a1) * (2 * k) + rest && rest >= t * k
    requires 2 * a1 + t == qb * b + a1'
    ensures n == ((2 * q + qb) * b + a1') * k + (rest - t * k)
  {
    assert (q * b + a1) * (2 * k) == (2 * (q * b) + 2 * a1) * k;
    assert (2 * q + qb) * b == 2 * (q * b) + qb * b;
    assert (2 * (q * b) + 2 * a1 + t) * k == (2 * (q * b) + 2 * a1) * k + t * k;
  }

  method DivRemU(s: nat, a1: nat, a0: nat, b: nat) returns (quotient: nat, remainder: nat)
    requires s > 0 && a1 < b < Pow2(s) && a0 < Pow2(s)
    ensures quotient == (a1 * Pow2(s) + a0) / b && remainder == (a1 * Pow2(s) + a0) % b
  {
    var x1: nat, x0: nat := a1, a0;
    ghost var n := a1 * Pow2(s) + a0;
    ghost var q: nat, rest: nat := 0, a0;
    for i := 0 to s
      invariant Dividing(s, i, n, b, x1, x0, q, rest) && x0 < Pow2(s)
    {
      NextBit(s, i, x0, q, rest);
      var carry := 2 * x1 >= Pow2(s);
      var t := x0 / Pow2(s - 1);
      ghost var full := 2 * x1 + t;
      var y1 := (if carry then 2 * x1 - Pow2(s) else 2 * x1) + t;
      var qb := if carry || y1 >= b then 1 else 0;
      ghost var k := Pow2(s - i - 1);
      var r1: nat := if carry then y1 + Pow2(s) - b else if qb == 1 then y1 - b else y1;
      StepRemainder(n, b, q, x1, t, k, rest, qb, r1);
      x0 := 2 * x0 - t * Pow2(s) + qb;
      x1 := r1;
      rest := rest - t * k;
      q := 2 * q + qb;
      LowWordFits(s, i + 1, rest, q);
    }
    quotient, remainder := x0, x1;
    Commutes(b, x0);
    DivModUnique(n, b, x0, x1);
  }

  lemma LowWordFits(s: nat, i: nat, rest: nat, q: nat)
    requires i <= s && rest < Pow2(s - i) && q < Pow2(i)
    ensures rest * Pow2(i) + q < Pow2(s)
  {
    Pow2Add(s - i, i);
    TimesMonotone(rest + 1, Pow2(s - i), Pow2(i));
    assert (rest + 1) * Pow2(i) == rest * Pow2(i) + Pow2(i);
  }

  /** The word div_sf goes on with: the bit-by-bit quotient, sticky when there is a remainder. */
  method QuotientByBits(f: Format, a: Float, b: Float) returns (m: nat)
    requires Supported(f) && Finite(f, a) && Finite(f, b) && !IsZero(a) && !IsZero(b)
    ensures m == QuotientWord(f, a, b)
  {
    DivisorFits(f, a, b);
    var quotient, remainder := DivRemU(Size(f), Normalized(f, a).1, 0, 4 * Normalized(f, b).1);
    m := SetSticky(quotient, remainder != 0);
  }

  lemma DivisorFits(f: Format, a: Float, b: Float)
    requires Supported(f) && Finite(f, a) && Finite(f, b) && !IsZero(a) && !IsZero(b)
    ensures Normalized(f, a).1 < 4 * Normalized(f, b).1 < Pow2(Size(f))
  {
    NormalizedBounds(f, a);
    NormalizedBounds(f, b);
    Pow2Five(f.mantBits);
    Pow2Monotone(f.mantBits + 5, Size(f));
  }

  // --------------------------------------------------------------- Newton square root

  function NewtonStep(a: nat, s: nat): nat
    requires s > 0
  {
    QuotientFacts(a, s);
    (a / s + s) / 2
  }

  lemma ArithmeticGeometric(x: nat, y: nat, r: nat)
    requires x + y <= 2 * r
    ensures x * y <= r * r
  {
    var d := x - y;
    assert d * d >= 0;
    assert (x + y) * (x + y) == 4 * (x * y) + d * d;
    ProductLe(x + y, 2 * r, x + y, 2 * r);
    assert 2 * r * (2 * r) == 4 * (r * r);
  }

  /** A step never goes below the floor root, wherever it starts. */
  lemma NewtonStaysAbove(a: nat, s: nat)
    requires s > 0
    ensures NewtonStep(a, s) >= FloorRoot(a)
  {
    QuotientFacts(a, s);
    NewtonAbove(a, s, a / s, a % s, FloorRoot(a));
  }

  lemma NewtonAbove(a: nat, s: nat, q: nat, m: nat, r: nat)
    requires s > 0 && a == s * q + m && m < s && r * r <= a
    ensures (q + s) / 2 >= r
  {
    assert (q + 1) * s == s * q + s;
    if q + 1 + s <= 2 * r { ArithmeticGeometric(q + 1, s, r); }
  }

  /** When a step no longer decreases, its start was at most the floor root. */
  lemma NewtonStops(a: nat, s: nat)
    requires s > 0 && NewtonStep(a, s) >= s
    ensures s <= FloorRoot(a)
  {
    QuotientFacts(a, s);
    RootAtLeast(a, s, a / s, FloorRoot(a));
  }

  lemma RootAtLeast(a: nat, s: nat, q: nat, r: nat)
    requires q >= s && s * q <= a < (r + 1) * (r + 1)
    ensures s <= r
  {
    ProductLe(s, s, s, q);
    if s > r { ProductLe(r + 1, s, r + 1, s); }
  }

  /** Starting below the floor root, the first step stops the loop. */
  lemma NewtonFromBelow(a: nat, s: nat)
    requires 0 < s < FloorRoot(a)
    ensures NewtonStep(a, s) >= s
  {
    NewtonStaysAbove(a, s);
  }

  /** The starting point the code derives from the leading zeros of the radicand. */
  function NewtonStart(s: nat, ah: nat, al: nat): nat
    requires ah > 0 || al > 0
  {
    var l := if ah != 0 then s + BitLength(ah - 1) else BitLength(al - 1);
    Pow2((l + 1) / 2)
  }

  /** The Newton loop finds the floor root exactly when it starts at or above it. */
  method NewtonRoot(a: nat, start: nat) returns (root: nat)
    requires a > 0 && start > 0
    ensures root == FloorRoot(a) <==> FloorRoot(a) <= start
  {
    root := start;
    var u := NewtonStep(a, root);
    NewtonStaysAbove(a, root);
    while u < root
      invariant root > 0 && u == NewtonStep(a, root) && u >= FloorRoot(a) && root <= start
      invariant FloorRoot(a) <= start ==> FloorRoot(a) <= root
      invariant start < FloorRoot(a) ==> root == start
      decreases root
    {
      RootPositive(a);
      root := u;
      u := NewtonStep(a, root);
      NewtonStaysAbove(a, root);
    }
    NewtonStops(a, root);
  }

  method SqrtRemU(s: nat, ah: nat, al: nat) returns (root: nat, inexact: bool)
    requires ah < Pow2(s) && al < Pow2(s)
    ensures var a := ah * Pow2(s) + al;
            && (a > 0 ==> var u := NewtonStart(s, ah, al); root == FloorRoot(a) <==> a < (u + 1) * (u + 1))
            && (ah == 0 || al == 0 ==> root == FloorRoot(a))
            && (inexact <==> root * root != a)
  {
    if ah == 0 && al == 0 { return 0, false; }
    var a := ah * Pow2(s) + al;
    PositiveDouble(s, ah, al);
    var u := NewtonStart(s, ah, al);
    root := NewtonRoot(a, u);
    RootWithin(a, u);
    if ah == 0 || al == 0 { StartSuffices(s, ah, al); }
    inexact := root * root != a;
  }

  lemma RootPositive(a: nat)
    requires a > 0
    ensures FloorRoot(a) > 0
  {
  }

  lemma PositiveDouble(s: nat, ah: nat, al: nat)
    requires ah > 0 || al > 0
    ensures ah * Pow2(s) + al > 0
  {
    if ah > 0 { TimesMonotone(1, ah, Pow2(s)); }
  }

  /** A caller can tell from the start whether it reaches the floor root. */
  lemma RootWithin(a: nat, u: nat)
    ensures FloorRoot(a) <= u <==> a < (u + 1) * (u + 1)
  {
    WithinSquare(a, FloorRoot(a), u);
  }

  lemma WithinSquare(a: nat, r: nat, u: nat)
    requires r * r <= a < (r + 1) * (r + 1)
    ensures r <= u <==> a < (u + 1) * (u + 1)
  {
    if r <= u { ProductLe(r + 1, u + 1, r + 1, u + 1); } else { ProductLe(u + 1, r, u + 1, r); }
  }

  /** A start that high reaches the root. */
  function Covers(u: nat, a: nat): Verdict {
    if a <= u * u then Sound else Unsound
  }

  /** The start is high enough when either word is zero. */
  lemma StartSuffices(s: nat, ah: nat, al: nat)
    requires (ah == 0 && al > 0) || (ah > 0 && al == 0)
    ensures var u := NewtonStart(s, ah, al); ah * Pow2(s) + al < (u + 1) * (u + 1)
  {
    var u := NewtonStart(s, ah, al);
    if ah == 0 { LowWordStart(s, al); } else { HighWordStart(s, ah, ProductOf(ah, Pow2(s))); }
    BelowSquare(u + 1);
  }

  /** A radicand below 2^(F_SIZE - 2), as documented, has a zero high word: the start comes from the low word. */
  lemma LowWordStart(s: nat, al: nat)
    requires al > 0
    ensures Covers(NewtonStart(s, 0, al), al).Sound?
  {
    BitLengthCovers(al);
    PowerCovers(BitLength(al - 1), (BitLength(al - 1) + 1) / 2, al);
  }

  /** Every call of sqrt_sf passes a zero low word. */
  lemma HighWordStart(s: nat, ah: nat, a: nat)
    requires ah > 0 && a == ProductOf(ah, Pow2(s))
    ensures Covers(NewtonStart(s, ah, 0), a).Sound?
  {
    var len := s + BitLength(ah - 1);
    BitLengthCovers(ah);
    ShiftedAtMost(s, ah, BitLength(ah - 1), a);
    PowerCovers(len, (len + 1) / 2, a);
  }

  lemma BitLengthCovers(n: nat)
    requires n > 0
    ensures n <= Pow2(BitLength(n - 1))
  {
    if n > 1 { BitLengthBrackets(n - 1); }
  }

  lemma ShiftedAtMost(s: nat, n: nat, len: nat, a: nat)
    requires n <= Pow2(len) && a == ProductOf(n, Pow2(s))
    ensures a <= Pow2(s + len)
  {
    Pow2Add(len, s);
    TimesMonotone(n, Pow2(len), Pow2(s));
  }

  lemma PowerCovers(n: nat, half: nat, a: nat)
    requires a <= Pow2(n) && n <= 2 * half
    ensures Covers(Pow2(half), a).Sound?
  {
    Pow2Monotone(n, half + half);
    Pow2Add(half, half);
  }

  /** The word sqrt_sf goes on with: the Newton root of its radicand, sticky when inexact. */
  method RootOf(f: Format, a: Float) returns (m: nat)
    requires Supported(f) && Finite(f, a) && !IsZero(a)
    ensures m == StickyRoot(Square(f, a))
  {
    RadicandWordFits(f, a);
    var ah := Radicand(f, a).1 * Pow2(Size(f) - 4 - f.mantBits);
    var root, inexact := SqrtRemU(Size(f), ah, 0);
    m := SetSticky(root, inexact);
  }

  lemma RadicandWordFits(f: Format, a: Float)
    requires Supported(f) && Finite(f, a) && !IsZero(a)
    ensures 0 < Radicand(f, a).1 * Pow2(Size(f) - 4 - f.mantBits) < Pow2(Size(f))
  {
    RadicandBounds(f, a);
    ShiftBounds(Radicand(f, a).1, f.mantBits, f.mantBits + 2, Size(f) - 4 - f.mantBits);
    Pow2Monotone(Size(f) - 2, Size(f));
  }

  /** At word width 32: with both words nonzero the start can be too low, and the loop then stops at once. */
  lemma StartTooLow()
    ensures var (ah, al) := (1, 0xffff_ffff);
            var u := NewtonStart(32, ah, al);
            u == 65536 && ah * Pow2(32) + al >= (u + 1) * (u + 1)
  {
    assert Pow2(8) == 256;
    Pow2Add(8, 8);
    Pow2Add(16, 16);
    assert BitLength(0) == 0;
  }

  // ------------------------------------------------------------------------- packing

  /** Sign, exponent and mantissa as digits of a mixed-radix number. */
  lemma Digits(m: nat, e: nat, sign: nat, exp: nat, mant: nat)
    requires exp < e && mant < m && sign < 2
    ensures var w := sign * (e * m) + (exp * m + mant);
            && e * m > 0 && w < 2 * (e * m) && w / (e * m) == sign
            && w % m == mant && w / m % e == exp
  {
    FitsBelow(exp, e, m, mant);
    var low := exp * m + mant;
    var w := sign * (e * m) + low;
    Commutes(e * m, sign);
    DivModUnique(w, e * m, sign, low);
    MergeDigits(m, e, sign, exp, mant);
    DivModUnique(w, m, sign * e + exp, mant);
    Commutes(e, sign);
    DivModUnique(sign * e + exp, e, sign, exp);
  }

  lemma MergeDigits(m: nat, e: nat, sign: nat, exp: nat, mant: nat)
    requires sign < 2
    ensures sign * (e * m) + (exp * m + mant) == m * (sign * e + exp) + mant
  {
  }

  function SignBit(a: Float): nat { if a.negative then 1 else 0 }

  lemma PackIsDigits(f: Format, a: Float)
    requires WellFormed(f, a)
    ensures Pow2(f.mantBits + f.expBits) == Pow2(f.expBits) * Pow2(f.mantBits)
    ensures Pack(f, a) == SignBit(a) * (Pow2(f.expBits) * Pow2(f.mantBits)) + (a.exp * Pow2(f.mantBits) + a.mant)
  {
    Pow2Add(f.expBits, f.mantBits);
    DivModUnique(a.mant, Pow2(f.mantBits), 0, a.mant);
  }

  /** Unpacking undoes packing. */
  lemma UnpackPack(f: Format, a: Float)
    requires WellFormed(f, a)
    ensures Pack(f, a) < Pow2(Size(f)) && Unpack(f, Pack(f, a)) == a
  {
    PackIsDigits(f, a);
    Digits(Pow2(f.mantBits), Pow2(f.expBits), SignBit(a), a.exp, a.mant);
  }

  lemma SplitDigits(m: nat, e: nat, w: nat)
    requires m > 0 && e > 0 && w < 2 * (e * m)
    ensures w / m >= 0 && w / m / e < 2 && 0 <= w / m / e && 0 <= w / m % e < e && 0 <= w % m < m
    ensures w == w / m / e * (e * m) + (w / m % e * m + w % m)
  {
    QuotientFacts(w, m);
    QuotientFacts(w / m, e);
    MergeDigits2(m, e, w / m / e, w / m % e, w % m, w / m, w);
  }

  lemma MergeDigits2(m: nat, e: nat, sign: nat, exp: nat, mant: nat, top: nat, w: nat)
    requires w == m * top + mant && top == e * sign + exp && w < 2 * (e * m)
    ensures w == sign * (e * m) + (exp * m + mant) && sign < 2
  {
    assert m * top == m * (e * sign) + m * exp;
    assert m * (e * sign) == sign * (e * m);
    if sign >= 2 { TimesMonotone(2, sign, e * m); }
  }

  /** Packing undoes unpacking, so every word is the encoding of one float. */
  lemma PackUnpack(f: Format, w: nat)
    requires w < Pow2(Size(f))
    ensures WellFormed(f, Unpack(f, w)) && Pack(f, Unpack(f, w)) == w
  {
    var m, e := Pow2(f.mantBits), Pow2(f.expBits);
    Pow2Add(f.expBits, f.mantBits);
    SplitDigits(m, e, w);
    Digits(m, e, w / m / e, w / m % e, w % m);
    PackIsDigits(f, Unpack(f, w));
  }
}
