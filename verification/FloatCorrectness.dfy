/** Every operation returns the correct rounding of the exact real result. */
module FloatCorrectness {
  import opened Arithmetic
  import opened FloatRounding
  import opened SoftFloat

  // ----------------------------------------------------------- the specification

  function GridOf(f: Format): Grid
    requires Supported(f)
  {
    Grid(f.mantBits + 1, 1 - Bias(f) - f.mantBits)
  }

  /** The magnitude a finite float stands for. */
  ghost function Value(f: Format, a: Float): real
    requires Supported(f)
  {
    Scale(Significand(f, a) as real, Exponent(a) - Bias(f) - f.mantBits)
  }

  ghost function Signed(f: Format, a: Float): real
    requires Supported(f)
  {
    if a.negative then -Value(f, a) else Value(f, a)
  }

  /** x rounds below the least normal magnitude even with an unbounded exponent. */
  ghost predicate Tiny(f: Format, x: real, rm: Mode, negative: bool)
    requires Supported(f)
  {
    exists q: int, y: real :: TinyAt(f, x, rm, negative, q, y)
  }

  ghost predicate TinyAt(f: Format, x: real, rm: Mode, negative: bool, q: int, y: real)
    requires Supported(f)
  {
    && Scale(1.0, q + f.mantBits) <= x < Scale(1.0, q + f.mantBits + 1)
    && IsRounding(x, rm, negative, q, y)
    && y < Scale(1.0, 1 - Bias(f))
  }

  /** The outcome for an exact magnitude x whose unbounded rounding is y. */
  ghost predicate Delivers(f: Format, x: real, y: real, rm: Mode, negative: bool, out: Outcome)
    requires Supported(f)
  {
    if y >= Scale(1.0, Bias(f) + 1) then
      && out.float == (if Truncates(rm, negative) then Float(negative, ExpMask(f) - 1, Pow2(f.mantBits) - 1)
                       else Float(negative, ExpMask(f), 0))
      && out.flags == {Overflow, Inexact}
    else
      && Finite(f, out.float) && out.float.negative == negative && Value(f, out.float) == y
      && out.flags <= {Inexact, Underflow}
      && (Inexact in out.flags <==> y != x)
      && (Underflow in out.flags <==> y != x && Tiny(f, x, rm, negative))
  }

  /** The outcome is the correctly rounded one. */
  ghost predicate Correct(f: Format, x: real, rm: Mode, negative: bool, out: Outcome)
    requires Supported(f)
  {
    exists y: real :: RoundsTo(GridOf(f), x, rm, negative, y) && Delivers(f, x, y, rm, negative, out)
  }

  // -------------------------------------------------------------- rounding a word

  /** Whether the lost bits r, out of 2h, round the magnitude up. */
  predicate RoundsUp(r: nat, h: nat, odd: bool, rm: Mode, negative: bool) {
    match rm
    case RNE => r > h || (r == h && odd)
    case RMM => r >= h
    case RTZ => false
    case RDN => negative && r > 0
    case RUP => !negative && r > 0
  }

  lemma SumDivides(k: nat, n: nat, r: nat, addend: nat)
    requires r < k && addend <= k
    ensures (k * n + r + addend) / k == if r + addend >= k then n + 1 else n
  {
    if r + addend >= k {
      assert k * (n + 1) == k * n + k;
      DivModUnique(k * n + r + addend, k, n + 1, r + addend - k);
    } else {
      DivModUnique(k * n + r + addend, k, n, r + addend);
    }
  }

  /** The addition of the addend is a decision on the lost bits. */
  lemma RoundMantCases(m: nat, r: nat, rm: Mode, negative: bool)
    requires r > 0
    ensures var n, lost := m / Pow2(r), m % Pow2(r);
            && n >= 0
            && RoundMant(m, r, rm, negative)
               == if RoundsUp(lost, Pow2(r - 1), n % 2 == 1, rm, negative) then n + 1 else n
  {
    QuotientFacts(m, Pow2(r));
    var n, lost := m / Pow2(r), m % Pow2(r);
    SumDivides(Pow2(r), n, lost, Addend(r, rm, negative));
    AddendDecides(Pow2(r - 1), n, lost, rm, negative, r);
  }

  /** Carry, and the clearing of a tie's low bit, as a decision. */
  lemma AddendDecides(h: nat, n: nat, lost: nat, rm: Mode, negative: bool, r: nat)
    requires r > 0 && h == Pow2(r - 1) && h > 0 && lost < 2 * h
    ensures var up := if lost + Addend(r, rm, negative) >= 2 * h then n + 1 else n;
            (if rm.RNE? && lost == h then up - up % 2 else up)
            == if RoundsUp(lost, h, n % 2 == 1, rm, negative) then n + 1 else n
  {
  }

  /** Dropping one more bit into the sticky bit does not change the rounding. */
  lemma RoundMantHalf(m: nat, r: nat, rm: Mode, negative: bool)
    requires r > 2
    ensures RoundMant(m, r, rm, negative) == RoundMant(Half(m), r - 1, rm, negative)
    ensures m % Pow2(r) == 0 <==> Half(m) % Pow2(r - 1) == 0
  {
    var k := Pow2(r - 1);
    assert Pow2(r) == 2 * k && k == 2 * Pow2(r - 2) && k > 1;
    Pow2Even(r - 2);
    RoundMantCases(m, r, rm, negative);
    RoundMantCases(Half(m), r - 1, rm, negative);
    HalfDivides(m, k);
    QuotientFacts(m, Pow2(r));
    HalfDecides(m % Pow2(r), Pow2(r - 2));
    SameDecision(m % Pow2(r), Pow2(r - 2), m / Pow2(r) % 2 == 1, rm, negative);
  }

  lemma SameDecision(lost: nat, h: nat, odd: bool, rm: Mode, negative: bool)
    requires h % 2 == 0
    ensures RoundsUp(Half(lost), h, odd, rm, negative) == RoundsUp(lost, 2 * h, odd, rm, negative)
  {
  }

  lemma HalfDecides(r: nat, h: nat)
    requires h % 2 == 0
    ensures Half(r) > h <==> r > 2 * h
    ensures Half(r) == h <==> r == 2 * h
    ensures Half(r) == 0 <==> r == 0
  {
  }

  lemma {:induction false} RoundMantSticky(m: nat, r: nat, rm: Mode, negative: bool)
    requires r >= 2
    ensures RoundMant(m, r, rm, negative) == RoundMant(Sticky(m, r - 2), 2, rm, negative)
    ensures m % Pow2(r) == 0 <==> Sticky(m, r - 2) % 4 == 0
    decreases r
  {
    assert Pow2(2) == 4;
    if r > 2 {
      RoundMantHalf(m, r, rm, negative);
      RoundMantSticky(Half(m), r - 1, rm, negative);
    }
  }

  /** Where a quarter of the jammed number lies. */
  lemma QuarterPlace(m: nat, w: real)
    requires Jams(m, w)
    ensures var z, n := w / 4.0, m / 4;
            && z.Floor == n
            && (z == n as real <==> m % 4 == 0)
            && (z - n as real > 0.0 <==> m % 4 > 0)
            && (z - n as real < 0.5 <==> m % 4 < 2)
            && (z - n as real == 0.5 <==> m % 4 == 2)
  {
    JamCell(m / 4, m % 4, m, w);
    QuarterCell((m / 4) as real, m % 4, w);
    FloorIs(w / 4.0, m / 4);
  }

  /** The real interval, or point, that the two low bits name. */
  predicate InCell(x: real, r: nat, w: real) {
    if r == 0 then w == 4.0 * x
    else if r == 1 then 4.0 * x < w < 4.0 * x + 2.0
    else if r == 2 then w == 4.0 * x + 2.0
    else 4.0 * x + 2.0 < w < 4.0 * x + 4.0
  }

  lemma JamCell(n: nat, r: nat, m: nat, w: real)
    requires Jams(m, w) && m == 4 * n + r && r < 4
    ensures InCell(n as real, r, w)
  {
    SameParity(n, r, m);
    FourTimesCast(n, r, m);
  }

  lemma SameParity(n: nat, r: nat, m: nat)
    requires m == 4 * n + r
    ensures m % 2 == r % 2
  {
  }

  lemma FourTimesCast(n: nat, r: nat, m: nat)
    requires m == 4 * n + r
    ensures m as real == 4.0 * n as real + r as real
    ensures (m - 1) as real == m as real - 1.0 && (m + 1) as real == m as real + 1.0
  {
  }

  lemma QuarterCell(x: real, r: nat, w: real)
    requires r < 4 && InCell(x, r, w)
    ensures var frac := w / 4.0 - x;
            && 0.0 <= frac < 1.0
            && (frac == 0.0 <==> r == 0) && (frac > 0.0 <==> r > 0)
            && (frac < 0.5 <==> r < 2) && (frac == 0.5 <==> r == 2)
  {
  }

  lemma FloorIs(z: real, n: int)
    requires n as real <= z < n as real + 1.0
    ensures z.Floor == n
  {
  }

  /** Two rounding bits suffice: half and sticky. */
  lemma QuarterRounds(m: nat, w: real, rm: Mode, negative: bool)
    requires Jams(m, w)
    ensures RoundMant(m, 2, rm, negative) == ToInteger(w / 4.0, rm, negative)
    ensures m % 4 == 0 <==> w / 4.0 == (w / 4.0).Floor as real
    ensures m % 4 == 0 ==> w / 4.0 == RoundMant(m, 2, rm, negative) as real
  {
    assert Pow2(1) == 2;
    assert Pow2(2) == 4;
    RoundMantCases(m, 2, rm, negative);
    QuarterPlace(m, w);
  }

  /** The rounded word is the rounding of whatever real number it stands for. */
  lemma WordRounds(m: nat, r: nat, w: real, rm: Mode, negative: bool)
    requires r >= 2 && Jams(Sticky(m, r - 2), w)
    ensures RoundMant(m, r, rm, negative) == ToInteger(w / 4.0, rm, negative)
    ensures m % Pow2(r) == 0 <==> w / 4.0 == RoundMant(m, r, rm, negative) as real
  {
    RoundMantSticky(m, r, rm, negative);
    QuarterRounds(Sticky(m, r - 2), w, rm, negative);
  }

  // -------------------------------------------------------------- round and pack

  /** Mantissa and exponent stand for x as far as rounding can see. */
  ghost predicate Carries(f: Format, exp: int, mant: nat, x: real)
    requires Supported(f)
  {
    && Jams(Sticky(mant, Rnd(f) - 2), Scale(x, Bias(f) + f.mantBits + 2 - exp))
    && (mant == 0 || Pow2(Size(f) - 2) <= mant < Pow2(Size(f) - 1))
  }

  lemma JamsBounds(m: nat, w: real, lo: nat, hi: nat)
    requires Jams(m, w) && lo <= m < hi && lo % 2 == 0 && hi % 2 == 0
    ensures lo as real <= w < hi as real
  {
  }

  /** The binade x lies in. */
  lemma CarriesBinade(f: Format, exp: int, mant: nat, x: real)
    requires Supported(f) && Carries(f, exp, mant, x) && mant != 0
    ensures Scale(1.0, exp - Bias(f)) <= x < Scale(1.0, exp - Bias(f) + 1)
  {
    var k := Bias(f) + f.mantBits + 2 - exp;
    StickyBounds(mant, Rnd(f) - 2, f.mantBits + 2, f.mantBits + 3);
    Pow2Even(f.mantBits + 2);
    Pow2Even(f.mantBits + 3);
    JamsBounds(Sticky(mant, Rnd(f) - 2), Scale(x, k), Pow2(f.mantBits + 2), Pow2(f.mantBits + 3));
    UnscaleBounds(x, k, f.mantBits + 2);
  }

  lemma UnscaleBounds(x: real, k: int, n: nat)
    requires Pow2(n) as real <= Scale(x, k) < Pow2(n + 1) as real
    ensures Scale(1.0, n - k) <= x < Scale(1.0, n + 1 - k)
  {
    ScaleOne(n, -k);
    ScaleOne(n + 1, -k);
    ScaleLess(Pow2(n) as real, Scale(x, k), -k);
    ScaleLess(Scale(x, k), Pow2(n + 1) as real, -k);
    ScaleInverse(x, k);
  }

  lemma CarriesZero(f: Format, exp: int, x: real)
    requires Supported(f) && Carries(f, exp, 0, x)
    ensures x == 0.0
  {
    var k := Bias(f) + f.mantBits + 2 - exp;
    StickyOfSmall(0, Rnd(f) - 2);
    ScaleInverse(x, k);
    ScaleSum(0.0, 0.0, -k);
  }

  /** The word and exponent that are rounded, after the shift of a subnormal result. */
  function Shifted(f: Format, exp: int, mant: nat): nat {
    if exp <= 0 then RshiftRnd(f, mant, 1 - exp) else mant
  }

  function ShiftedExp(exp: int): int {
    if exp <= 0 then 1 else exp
  }

  lemma ShiftedJams(f: Format, exp: int, mant: nat, x: real)
    requires Supported(f) && Carries(f, exp, mant, x)
    ensures Jams(Sticky(Shifted(f, exp, mant), Rnd(f) - 2), Scale(x, Bias(f) + f.mantBits + 2 - ShiftedExp(exp)))
  {
    if exp <= 0 {
      var r := Rnd(f) - 2;
      Pow2Monotone(Size(f) - 1, Size(f));
      RshiftIsSticky(f, mant, 1 - exp);
      StickyCompose(mant, 1 - exp, r);
      StickyCompose(mant, r, 1 - exp);
      var k := Bias(f) + f.mantBits + 2 - exp;
      StickyJams(Sticky(mant, r), Scale(x, k), 1 - exp);
      ScaleAdd(x, k, exp - 1);
    }
  }

  lemma QuarterScale(x: real, q: int)
    ensures Scale(x, 2 - q) / 4.0 == Scale(x, -q)
  {
    ScaleSucc(x, -q);
    ScaleSucc(x, 1 - q);
  }

  /** The rounded mantissa is the correct multiple of the quantum, and the lost bits tell exactness. */
  lemma MantissaRounds(f: Format, negative: bool, exp: int, mant: nat, rm: Mode, x: real)
    requires Supported(f) && Carries(f, exp, mant, x) && mant != 0
    ensures var q := ShiftedExp(exp) - Bias(f) - f.mantBits;
            var n := RoundMant(Shifted(f, exp, mant), Rnd(f), rm, negative);
            && IsQuantum(GridOf(f), x, q)
            && IsRounding(x, rm, negative, q, Scale(n as real, q))
            && (Shifted(f, exp, mant) % Pow2(Rnd(f)) == 0 <==> Scale(n as real, q) == x)
  {
    var e := ShiftedExp(exp);
    var q := e - Bias(f) - f.mantBits;
    var m := Shifted(f, exp, mant);
    var w := Scale(x, 2 - q);
    ShiftedJams(f, exp, mant, x);
    WordRounds(m, Rnd(f), w, rm, negative);
    QuarterScale(x, q);
    CarriesBinade(f, exp, mant, x);
    ScaleMonotone(exp - Bias(f) + 1, e - Bias(f) + 1);
    ScaleInverse(x, q);
    ScaleInverse(RoundMant(m, Rnd(f), rm, negative) as real, q);
  }

  /** The rounded mantissa of a word between two powers of two. */
  lemma RoundMantBounds(m: nat, r: nat, rm: Mode, negative: bool, lo: nat, hi: nat)
    requires r > 0 && lo * Pow2(r) <= m < hi * Pow2(r)
    ensures lo <= RoundMant(m, r, rm, negative) <= hi
  {
    RoundMantCases(m, r, rm, negative);
    QuotientFacts(m, Pow2(r));
    QuotientBounds(m, Pow2(r), m / Pow2(r), m % Pow2(r), lo, hi);
  }

  lemma QuotientBounds(m: nat, k: nat, n: nat, r: nat, lo: nat, hi: nat)
    requires m == k * n + r && r < k && lo * k <= m < hi * k
    ensures lo <= n < hi
  {
    if n < lo { TimesMonotone(n + 1, lo, k); }
    if hi <= n { TimesMonotone(hi, n, k); }
  }

  /** How large the rounded mantissa is. */
  lemma RoundedBounds(f: Format, negative: bool, exp: int, mant: nat, rm: Mode)
    requires Supported(f) && Pow2(Size(f) - 2) <= mant < Pow2(Size(f) - 1)
    ensures var n := RoundMant(Shifted(f, exp, mant), Rnd(f), rm, negative);
            && n <= Pow2(f.mantBits + 1)
            && (exp > 0 ==> n >= Pow2(f.mantBits))
            && (exp <= 0 ==> n <= Pow2(f.mantBits))
  {
    if exp > 0 {
      NormalBounds(f, negative, mant, rm);
    } else {
      SubnormalShift(f, exp, mant);
      SubnormalBounds(f, negative, Shifted(f, exp, mant), rm);
    }
  }

  lemma SubnormalShift(f: Format, exp: int, mant: nat)
    requires Supported(f) && mant < Pow2(Size(f) - 1) && exp <= 0
    ensures Shifted(f, exp, mant) < Pow2(Size(f) - 2)
  {
    Pow2Monotone(Size(f) - 1, Size(f));
    RshiftIsSticky(f, mant, 1 - exp);
    Pow2Even(Size(f) - 2);
    StickyAtLeastHalves(mant, 1 - exp, Pow2(Size(f) - 2));
  }

  lemma NormalBounds(f: Format, negative: bool, m: nat, rm: Mode)
    requires Supported(f) && Pow2(Size(f) - 2) <= m < Pow2(Size(f) - 1)
    ensures Pow2(f.mantBits) <= RoundMant(m, Rnd(f), rm, negative) <= Pow2(f.mantBits + 1)
  {
    Pow2Add(f.mantBits, Rnd(f));
    Pow2Add(f.mantBits + 1, Rnd(f));
    RoundMantBounds(m, Rnd(f), rm, negative, Pow2(f.mantBits), Pow2(f.mantBits + 1));
  }

  lemma SubnormalBounds(f: Format, negative: bool, m: nat, rm: Mode)
    requires Supported(f) && m < Pow2(Size(f) - 2)
    ensures RoundMant(m, Rnd(f), rm, negative) <= Pow2(f.mantBits) <= Pow2(f.mantBits + 1)
  {
    Pow2Add(f.mantBits, Rnd(f));
    RoundMantBounds(m, Rnd(f), rm, negative, 0, Pow2(f.mantBits));
  }

  lemma StickyAtLeastHalves(m: nat, d: nat, hi: nat)
    requires d > 0 && m < 2 * hi && hi % 2 == 0
    ensures Sticky(m, d) < hi
  {
    StickyShrinks(Half(m), d - 1);
  }

  /** The fields chosen for a rounded mantissa n of quantum exponent e. */
  function Fields(f: Format, negative: bool, e: int, n: nat): Float
    requires e >= 1
  {
    QuotientFacts(n, Pow2(f.mantBits + 1));
    if n < Pow2(f.mantBits) then Float(negative, 0, n)
    else Float(negative, e + n / Pow2(f.mantBits + 1), n % Pow2(f.mantBits))
  }

  lemma FieldsCases(f: Format, negative: bool, e: int, n: nat)
    requires e >= 1 && n <= Pow2(f.mantBits + 1)
    ensures Fields(f, negative, e, n)
            == if n < Pow2(f.mantBits) then Float(negative, 0, n)
               else if n < Pow2(f.mantBits + 1) then Float(negative, e, n - Pow2(f.mantBits))
               else Float(negative, e + 1, 0)
  {
    var k := Pow2(f.mantBits);
    if n == Pow2(f.mantBits + 1) {
      DivModUnique(n, Pow2(f.mantBits + 1), 1, 0);
      DivModUnique(n, k, 2, 0);
    } else {
      DivModUnique(n, Pow2(f.mantBits + 1), 0, n);
      if n >= k { DivModUnique(n, k, 1, n - k); }
    }
  }

  /** The fields stand for n quanta, and overflow exactly when that is out of range. */
  lemma FieldsValue(f: Format, negative: bool, e: int, n: nat)
    requires Supported(f) && e >= 1 && n <= Pow2(f.mantBits + 1) && (e == 1 || n >= Pow2(f.mantBits))
    ensures var y := Scale(n as real, e - Bias(f) - f.mantBits);
            var a := Fields(f, negative, e, n);
            && Value(f, a) == y && a.mant < Pow2(f.mantBits)
            && (a.exp >= ExpMask(f) <==> y >= Scale(1.0, Bias(f) + 1))
  {
    FieldsCases(f, negative, e, n);
    var a := Fields(f, negative, e, n);
    if n == Pow2(f.mantBits + 1) {
      ScaleOne(f.mantBits, e + 1 - Bias(f) - f.mantBits);
      ScaleOne(f.mantBits + 1, e - Bias(f) - f.mantBits);
    }
    ValueRange(f, a);
    ExpMaskIsOdd(f);
    if a.exp >= ExpMask(f) {
      ScaleMonotone(Bias(f) + 1, a.exp - Bias(f));
    } else {
      ScaleMonotone(Exponent(a) + 1 - Bias(f), Bias(f) + 1);
    }
  }

  lemma ExpMaskIsOdd(f: Format)
    requires Supported(f)
    ensures ExpMask(f) == 2 * Bias(f) + 1 && Bias(f) >= 15
  {
    Pow2Monotone(4, f.expBits - 1);
    assert Pow2(4) == 16;
  }

  lemma ValueRange(f: Format, a: Float)
    requires Supported(f) && a.mant < Pow2(f.mantBits)
    ensures 0.0 <= Value(f, a) < Scale(1.0, Exponent(a) + 1 - Bias(f))
    ensures a.exp > 0 ==> Scale(1.0, a.exp - Bias(f)) <= Value(f, a)
  {
    var k := Exponent(a) - Bias(f) - f.mantBits;
    ScaleOne(f.mantBits + 1, k);
    ScaleOne(f.mantBits, k);
    ScaleSum(0.0, 0.0, k);
    ScaleLess(0.0, Significand(f, a) as real, k);
    ScaleLess(Significand(f, a) as real, Pow2(f.mantBits + 1) as real, k);
    ScaleLess(Pow2(f.mantBits) as real, Significand(f, a) as real, k);
  }

  lemma AddendTruncates(r: nat, rm: Mode, negative: bool)
    requires r > 0
    ensures Addend(r, rm, negative) == 0 <==> Truncates(rm, negative)
  {
  }

  // ------------------------------------------------------------------- underflow

  /** With an unbounded exponent the unshifted word would have been rounded. */
  lemma UnboundedRounding(f: Format, negative: bool, exp: int, mant: nat, rm: Mode, x: real)
    requires Supported(f) && Carries(f, exp, mant, x) && mant != 0
    ensures var q := exp - Bias(f) - f.mantBits;
            IsRounding(x, rm, negative, q, Scale(RoundMant(mant, Rnd(f), rm, negative) as real, q))
  {
    var q := exp - Bias(f) - f.mantBits;
    WordRounds(mant, Rnd(f), Scale(x, 2 - q), rm, negative);
    assert Scale(x, 2 - q) / 4.0 == Scale(x, -q) by { ScaleSucc(x, -q); ScaleSucc(x, 1 - q); }
  }

  lemma BinadeUnique(x: real, a: int, b: int)
    requires Scale(1.0, a) <= x < Scale(1.0, a + 1) && Scale(1.0, b) <= x < Scale(1.0, b + 1)
    ensures a == b
  {
    if a < b { ScaleMonotone(a + 1, b); }
    if b < a { ScaleMonotone(b + 1, a); }
  }

  lemma TinyExactly(f: Format, negative: bool, exp: int, mant: nat, rm: Mode, x: real)
    requires Supported(f) && Carries(f, exp, mant, x) && mant != 0
    ensures var q := exp - Bias(f) - f.mantBits;
            Tiny(f, x, rm, negative)
            <==> Scale(RoundMant(mant, Rnd(f), rm, negative) as real, q) < Scale(1.0, 1 - Bias(f))
  {
    var q := exp - Bias(f) - f.mantBits;
    var y := Scale(RoundMant(mant, Rnd(f), rm, negative) as real, q);
    CarriesBinade(f, exp, mant, x);
    UnboundedRounding(f, negative, exp, mant, rm, x);
    assert TinyAt(f, x, rm, negative, q, y) <==> y < Scale(1.0, 1 - Bias(f));
    forall q': int, y': real | TinyAt(f, x, rm, negative, q', y') ensures y' == y {
      BinadeUnique(x, q + f.mantBits, q' + f.mantBits);
    }
  }

  /** The code's test for a tiny result is the standard's. */
  lemma TinyTest(f: Format, negative: bool, exp: int, mant: nat, rm: Mode, x: real)
    requires Supported(f) && Carries(f, exp, mant, x) && mant != 0
    ensures Tiny(f, x, rm, negative)
            <==> exp < 0 || (exp == 0 && mant + Addend(Rnd(f), rm, negative) < Pow2(Size(f) - 1))
  {
    var n := RoundMant(mant, Rnd(f), rm, negative);
    TinyExactly(f, negative, exp, mant, rm, x);
    Pow2Add(f.mantBits, Rnd(f));
    Pow2Add(f.mantBits + 1, Rnd(f));
    RoundMantBounds(mant, Rnd(f), rm, negative, Pow2(f.mantBits), Pow2(f.mantBits + 1));
    MantissaScale(f, exp, n);
    if exp == 0 { CarryTest(f, mant, rm, negative); }
  }

  lemma MantissaScale(f: Format, exp: int, n: nat)
    requires Supported(f) && Pow2(f.mantBits) <= n <= Pow2(f.mantBits + 1)
    ensures Scale(n as real, exp - Bias(f) - f.mantBits) < Scale(1.0, 1 - Bias(f))
            <==> exp < 0 || (exp == 0 && n < Pow2(f.mantBits + 1))
  {
    var k := exp - Bias(f) - f.mantBits;
    ScaleOne(f.mantBits, k);
    ScaleOne(f.mantBits + 1, k);
    ScaleLess(Pow2(f.mantBits) as real, n as real, k);
    ScaleLess(n as real, Pow2(f.mantBits + 1) as real, k);
    if exp > 0 { ScaleMonotone(1 - Bias(f), exp - Bias(f)); }
    if exp < 0 {
      var b: int := Bias(f);
      ScaleMonotone(exp + 1 - b, 0 - b);
      ScaleSucc(1.0, 0 - b);
    }
  }

  lemma CarryTest(f: Format, mant: nat, rm: Mode, negative: bool)
    requires Supported(f) && mant < Pow2(Size(f) - 1)
    ensures RoundMant(mant, Rnd(f), rm, negative) < Pow2(f.mantBits + 1)
            <==> mant + Addend(Rnd(f), rm, negative) < Pow2(Size(f) - 1)
  {
    Pow2Add(f.mantBits + 1, Rnd(f));
    QuotientTest(mant + Addend(Rnd(f), rm, negative), Pow2(Rnd(f)), Pow2(f.mantBits + 1));
    ClearKeepsOrder((mant + Addend(Rnd(f), rm, negative)) / Pow2(Rnd(f)), Pow2(f.mantBits + 1));
  }

  lemma QuotientTest(sum: nat, k: nat, hi: nat)
    requires k > 0
    ensures sum / k >= 0 && (sum / k < hi <==> sum < hi * k)
  {
    QuotientFacts(sum, k);
    if sum < hi * k {
      QuotientBounds(sum, k, sum / k, sum % k, 0, hi);
    } else {
      QuotientAtLeast(sum, k, sum / k, sum % k, hi);
    }
  }

  lemma QuotientAtLeast(sum: nat, k: nat, n: nat, r: nat, hi: nat)
    requires sum == k * n + r && r < k && sum >= hi * k
    ensures n >= hi
  {
    if n < hi { TimesMonotone(n + 1, hi, k); }
  }

  lemma ClearKeepsOrder(n: nat, hi: nat)
    requires hi % 2 == 0
    ensures n - n % 2 < hi <==> n < hi
  {
  }

  // ---------------------------------------------------------------- the theorem

  lemma RoundPackZero(f: Format, negative: bool, exp: int, rm: Mode)
    requires Supported(f)
    ensures RoundPack(f, negative, exp, 0, rm) == Outcome(Float(negative, 0, 0), {})
  {
    Pow2Monotone(0, Size(f));
    var r := Rnd(f);
    if exp <= 0 {
      RshiftIsSticky(f, 0, 1 - exp);
      StickyOfSmall(0, 1 - exp);
    }
    RoundMantCases(0, r, rm, negative);
    DivModUnique(0, Pow2(r), 0, 0);
  }

  lemma ZeroIsCorrect(f: Format, negative: bool, rm: Mode)
    requires Supported(f)
    ensures Correct(f, 0.0, rm, negative, Outcome(Float(negative, 0, 0), {}))
  {
    var g := GridOf(f);
    ScaleSum(0.0, 0.0, -g.least);
    ScaleSum(0.0, 0.0, g.least);
    ScaleMonotone(g.least + g.p, g.least + g.p);
    ScaleMonotone(Bias(f) + 1, Bias(f) + 1);
    ExpMaskIsOdd(f);
    assert ToInteger(0.0, rm, negative) == 0;
    assert IsQuantum(g, 0.0, g.least) && IsRounding(0.0, rm, negative, g.least, 0.0);
    assert RoundsTo(g, 0.0, rm, negative, 0.0);
  }

  /** Rounding and packing is correct for whatever the word stands for. */
  lemma RoundPackIsCorrect(f: Format, negative: bool, exp: int, mant: nat, rm: Mode, x: real)
    requires Supported(f) && Carries(f, exp, mant, x)
    ensures Correct(f, x, rm, negative, RoundPack(f, negative, exp, mant, rm))
  {
    if mant == 0 {
      CarriesZero(f, exp, x);
      RoundPackZero(f, negative, exp, rm);
      ZeroIsCorrect(f, negative, rm);
    } else {
      var e := ShiftedExp(exp);
      var n := RoundMant(Shifted(f, exp, mant), Rnd(f), rm, negative);
      var y := Scale(n as real, e - Bias(f) - f.mantBits);
      MantissaRounds(f, negative, exp, mant, rm, x);
      RoundedBounds(f, negative, exp, mant, rm);
      FieldsValue(f, negative, e, n);
      TinyTest(f, negative, exp, mant, rm, x);
      PackDelivers(f, negative, exp, mant, rm, x, y);
    }
  }

  lemma PackDelivers(f: Format, negative: bool, exp: int, mant: nat, rm: Mode, x: real, y: real)
    requires Supported(f) && mant != 0
    requires var n := RoundMant(Shifted(f, exp, mant), Rnd(f), rm, negative);
             var a := Fields(f, negative, ShiftedExp(exp), n);
             && (exp <= 0 ==> n <= Pow2(f.mantBits))
             && Value(f, a) == y && a.mant < Pow2(f.mantBits)
             && (a.exp >= ExpMask(f) <==> y >= Scale(1.0, Bias(f) + 1))
             && (Shifted(f, exp, mant) % Pow2(Rnd(f)) == 0 <==> y == x)
    requires Tiny(f, x, rm, negative)
             <==> exp < 0 || (exp == 0 && mant + Addend(Rnd(f), rm, negative) < Pow2(Size(f) - 1))
    ensures Delivers(f, x, y, rm, negative, RoundPack(f, negative, exp, mant, rm))
  {
    AddendTruncates(Rnd(f), rm, negative);
    ExpMaskIsOdd(f);
    var n := RoundMant(Shifted(f, exp, mant), Rnd(f), rm, negative);
    if exp <= 0 { FieldsCases(f, negative, 1, n); }
  }
}
