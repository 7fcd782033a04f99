/** Addition, multiplication, division and square root against the exact real result. */
module FloatOperations {
  import opened Wrappers
  import opened Arithmetic
  import opened FloatRounding
  import opened SoftFloat
  import opened FloatCorrectness

  // ----------------------------------------------------------------- normalising

  /** The power of two that brings a mantissa to the scale of x. */
  function WordScale(f: Format, exp: int): int
    requires Supported(f)
  {
    Bias(f) + f.mantBits + Rnd(f) - exp
  }

  /** Shifting left keeps what rounding can see when the sticky bit stays below the rounding bits. */
  lemma NormalizeCarries(f: Format, exp: int, m: nat, x: real)
    requires Supported(f) && m < Pow2(Size(f) - 1) && Jams(m, Scale(x, WordScale(f, exp)))
    requires m as real == Scale(x, WordScale(f, exp)) || m >= Pow2(f.mantBits + 2)
    ensures Clz(f, m) >= 1 && Carries(f, exp - (Clz(f, m) - 1), m * Pow2(Clz(f, m) - 1), x)
  {
    NormalizeRange(f, m);
    if Clz(f, m) - 1 <= Rnd(f) - 2 {
      ShortShift(m, Clz(f, m) - 1, Rnd(f) - 2, x, WordScale(f, exp));
    } else {
      ExactShift(m, Clz(f, m) - 1, Rnd(f) - 2, x, WordScale(f, exp));
    }
  }

  /** The shift is a shift left, brings the leading bit in place, and is short for long mantissas. */
  lemma NormalizeRange(f: Format, m: nat)
    requires Supported(f) && m < Pow2(Size(f) - 1)
    ensures Clz(f, m) >= 1
    ensures m * Pow2(Clz(f, m) - 1) == 0 || Pow2(Size(f) - 2) <= m * Pow2(Clz(f, m) - 1) < Pow2(Size(f) - 1)
    ensures m >= Pow2(f.mantBits + 2) ==> Clz(f, m) - 1 <= Rnd(f) - 2
  {
    BitLengthBound(m, Size(f) - 1);
    if m > 0 {
      BitLengthBrackets(m);
      ShiftLeftBounds(m, BitLength(m), Clz(f, m) - 1);
    }
    if m >= Pow2(f.mantBits + 2) { BitLengthAtLeast(m, f.mantBits + 2); }
  }

  lemma ShortShift(m: nat, s: nat, r: nat, x: real, k: int)
    requires s <= r && Jams(m, Scale(x, k))
    ensures Jams(Sticky(m * Pow2(s), r), Scale(x, k + s - r))
  {
    StickyUnshift(m, s, r);
    StickyJams(m, Scale(x, k), r - s);
    ScaleAdd(x, k, s - r);
  }

  lemma BitLengthAtLeast(m: nat, k: nat)
    requires m >= Pow2(k)
    ensures BitLength(m) > k
  {
    BitLengthBrackets(m);
    if BitLength(m) <= k { Pow2Monotone(BitLength(m), k); }
  }

  lemma ExactShift(m: nat, s: nat, r: nat, x: real, k: int)
    requires s > r && m as real == Scale(x, k)
    ensures Jams(Sticky(m * Pow2(s), r), Scale(x, k + s - r))
  {
    Pow2Add(s - r, r);
    Reassociate(m, Pow2(s - r), Pow2(r));
    StickyOfMultiple(m * Pow2(s - r), r);
    ScaleAdd(x, k, s - r);
    ScaleNat(m, s - r);
  }

  lemma NormalizeIsCorrect(f: Format, negative: bool, exp: int, m: nat, rm: Mode, x: real)
    requires Supported(f) && m < Pow2(Size(f) - 1) && Jams(m, Scale(x, WordScale(f, exp)))
    requires m as real == Scale(x, WordScale(f, exp)) || m >= Pow2(f.mantBits + 2)
    ensures Correct(f, x, rm, negative, Normalize(f, negative, exp, m, rm))
  {
    NormalizeCarries(f, exp, m, x);
    var s := Clz(f, m) - 1;
    RoundPackIsCorrect(f, negative, exp - s, m * Pow2(s), rm, x);
  }

  // -------------------------------------------------------------------- addition

  function Magn(x: real): real { if x < 0.0 then -x else x }

  /** The sign of an exact sum; a zero sum of unlike signs is negative only when rounding down. */
  ghost function SumSign(f: Format, a: Float, b: Float, rm: Mode): bool
    requires Supported(f)
  {
    var sum := Signed(f, a) + Signed(f, b);
    if sum != 0.0 then sum < 0.0 else if a.negative == b.negative then a.negative else rm == RDN
  }

  /** The scale at which the larger operand has three extra bits. */
  function SumScale(f: Format, a: Float): int
    requires Supported(f)
  {
    Bias(f) + f.mantBits + 3 - Exponent(a)
  }

  lemma LargerOperand(f: Format, a: Float)
    requires Supported(f)
    ensures Scale(Value(f, a), SumScale(f, a)) == (8 * Significand(f, a)) as real
  {
    ScaleAdd(Significand(f, a) as real, Exponent(a) - Bias(f) - f.mantBits, SumScale(f, a));
    EightTimes(Significand(f, a) as real);
  }

  /** The smaller operand at the scale of the larger one. */
  lemma SmallerOperand(f: Format, a: Float, b: Float)
    requires Supported(f) && Exponent(b) <= Exponent(a)
    ensures Scale(Value(f, b), SumScale(f, a)) == Scale((8 * Significand(f, b)) as real, Exponent(b) - Exponent(a))
  {
    ScaleAdd(Value(f, b), SumScale(f, b), Exponent(b) - Exponent(a));
    LargerOperand(f, b);
  }

  /** Its sticky shift loses nothing, and is exact for short distances. */
  lemma ShiftedOperand(n: nat, d: nat)
    ensures Jams(Sticky(8 * n, d), Scale((8 * n) as real, -(d as int)))
    ensures d <= 1 ==> Sticky(8 * n, d) as real == Scale((8 * n) as real, -(d as int))
  {
    StickyJams(8 * n, (8 * n) as real, d);
    if d == 1 { OneBitExact(4 * n); }
  }

  lemma OneBitExact(n: nat)
    ensures Sticky(2 * n, 1) == n && Scale((2 * n) as real, -1) == n as real
  {
    assert Half(2 * n) == n;
  }

  lemma EightTimes(x: real)
    ensures Scale(x, 3) == 8.0 * x
  {
    ScaleSucc(x, 2);
    ScaleSucc(x, 1);
    ScaleSucc(x, 0);
  }

  /** The larger magnitude decides the sign. */
  lemma ValueOrder(f: Format, a: Float, b: Float)
    requires Supported(f) && Finite(f, a) && Finite(f, b) && Magnitude(f, b) <= Magnitude(f, a)
    ensures 0.0 <= Value(f, b) <= Value(f, a)
  {
    MagnitudeOrder(f, a, b);
    ValueRange(f, a);
    ValueRange(f, b);
    if Exponent(a) == Exponent(b) {
      ScaleLess(Significand(f, b) as real, Significand(f, a) as real, Exponent(a) - Bias(f) - f.mantBits);
    } else {
      ScaleMonotone(Exponent(b) + 1 - Bias(f), a.exp - Bias(f));
    }
  }

  /** The word the code forms, and the exact magnitude it stands for. */
  ghost function SumWord(f: Format, a: Float, b: Float): int
    requires Supported(f) && Exponent(b) <= Exponent(a)
  {
    var s := Sticky(8 * Significand(f, b), Exponent(a) - Exponent(b));
    if a.negative == b.negative then 8 * Significand(f, a) + s else 8 * Significand(f, a) - s
  }

  ghost function ExactSum(f: Format, a: Float, b: Float): real
    requires Supported(f)
  {
    if a.negative == b.negative then Value(f, a) + Value(f, b) else Value(f, a) - Value(f, b)
  }

  lemma SumFits(f: Format, a: Float, b: Float)
    requires Supported(f) && Finite(f, a) && Finite(f, b) && Magnitude(f, b) <= Magnitude(f, a)
    ensures Exponent(b) <= Exponent(a) && 0 <= SumWord(f, a, b) < Pow2(Size(f) - 1)
    ensures Sticky(8 * Significand(f, b), Exponent(a) - Exponent(b)) <= 8 * Significand(f, a)
    ensures Exponent(a) - Exponent(b) <= 1 || SumWord(f, a, b) >= Pow2(f.mantBits + 2)
  {
    AddFits(f, a, b);
  }

  lemma SumJams(f: Format, a: Float, b: Float)
    requires Supported(f) && Exponent(b) <= Exponent(a)
    requires Sticky(8 * Significand(f, b), Exponent(a) - Exponent(b)) <= 8 * Significand(f, a)
    ensures 0 <= SumWord(f, a, b) && Jams(SumWord(f, a, b), Scale(ExactSum(f, a, b), SumScale(f, a)))
    ensures Exponent(a) - Exponent(b) <= 1 ==> SumWord(f, a, b) as real == Scale(ExactSum(f, a, b), SumScale(f, a))
  {
    var d, k := Exponent(a) - Exponent(b), SumScale(f, a);
    LargerOperand(f, a);
    SmallerOperand(f, a, b);
    ShiftedOperand(Significand(f, b), d);
    ScaleSum(Value(f, a), Value(f, b), k);
    CombineJams(a.negative == b.negative, 4 * Significand(f, a), Sticky(8 * Significand(f, b), d),
                Scale(Value(f, b), k), Scale(ExactSum(f, a, b), k));
  }

  lemma CombineJams(same: bool, c: nat, s: nat, y: real, z: real)
    requires Jams(s, y) && s <= 2 * c && z == if same then (2 * c) as real + y else (2 * c) as real - y
    ensures var m := if same then 2 * c + s else 2 * c - s;
            Jams(m, z) && (s as real == y ==> m as real == z)
  {
  }

  lemma AddOrderedIsCorrect(f: Format, a: Float, b: Float, rm: Mode)
    requires Supported(f) && Finite(f, a) && Finite(f, b) && Magnitude(f, b) <= Magnitude(f, a)
    ensures Correct(f, Magn(Signed(f, a) + Signed(f, b)), rm, SumSign(f, a, b, rm), AddOrdered(f, a, b, rm))
  {
    SumFits(f, a, b);
    SumJams(f, a, b);
    SumSignIs(f, a, b, rm);
    AddOrderedIsWord(f, a, b, rm);
    SumWordRounds(f, a, b, rm, SumSign(f, a, b, rm), ExactSum(f, a, b));
  }

  lemma SumWordRounds(f: Format, a: Float, b: Float, rm: Mode, negative: bool, x: real)
    requires Supported(f) && Finite(f, a) && Finite(f, b) && Magnitude(f, b) <= Magnitude(f, a)
    requires Exponent(b) <= Exponent(a) && 0 <= SumWord(f, a, b) < Pow2(Size(f) - 1) && x == ExactSum(f, a, b)
    ensures Correct(f, x, rm, negative, Normalize(f, negative, Exponent(a) + Rnd(f) - 3, SumWord(f, a, b), rm))
  {
    SumFits(f, a, b);
    SumJams(f, a, b);
    NormalizeIsCorrect(f, negative, Exponent(a) + Rnd(f) - 3, SumWord(f, a, b), rm, x);
  }

  /** The code's sign is that of the exact sum. */
  lemma SumSignIs(f: Format, a: Float, b: Float, rm: Mode)
    requires Supported(f) && Finite(f, a) && Finite(f, b) && Magnitude(f, b) <= Magnitude(f, a)
    requires Exponent(b) <= Exponent(a) && 0 <= SumWord(f, a, b)
    requires Jams(SumWord(f, a, b), Scale(ExactSum(f, a, b), SumScale(f, a)))
    ensures ExactSum(f, a, b) == Magn(Signed(f, a) + Signed(f, b))
    ensures SumSign(f, a, b, rm) == if a.negative != b.negative && SumWord(f, a, b) == 0 then rm == RDN else a.negative
  {
    ValueOrder(f, a, b);
    ZeroTest(SumWord(f, a, b), ExactSum(f, a, b), SumScale(f, a));
  }

  lemma AddOrderedIsWord(f: Format, a: Float, b: Float, rm: Mode)
    requires Supported(f) && Finite(f, a) && Finite(f, b) && Magnitude(f, b) <= Magnitude(f, a)
    ensures Exponent(b) <= Exponent(a) && 0 <= SumWord(f, a, b) < Pow2(Size(f) - 1)
    ensures AddOrdered(f, a, b, rm)
            == Normalize(f, if a.negative != b.negative && SumWord(f, a, b) == 0 then rm == RDN else a.negative,
                         Exponent(a) + Rnd(f) - 3, SumWord(f, a, b), rm)
  {
    AddFits(f, a, b);
  }

  lemma ZeroTest(m: nat, x: real, k: int)
    requires Jams(m, Scale(x, k))
    ensures m == 0 <==> x == 0.0
  {
    ScaleSum(0.0, 0.0, k);
    ScaleLess(0.0, x, k);
    ScaleLess(x, 0.0, k);
  }

  /** Addition of any two finite numbers is correctly rounded, in every mode. */
  lemma AddIsCorrect(f: Format, a: Float, b: Float, rm: Mode)
    requires Supported(f) && Finite(f, a) && Finite(f, b)
    ensures Correct(f, Magn(Signed(f, a) + Signed(f, b)), rm, SumSign(f, a, b, rm), Add(f, a, b, rm))
  {
    if Magnitude(f, a) < Magnitude(f, b) {
      AddOrderedIsCorrect(f, b, a, rm);
    } else {
      AddOrderedIsCorrect(f, a, b, rm);
    }
  }

  /** Subtraction flips the sign of its second operand. */
  function Subtract(f: Format, a: Float, b: Float, rm: Mode): Outcome
    requires Supported(f) && WellFormed(f, a) && WellFormed(f, b)
  {
    Add(f, a, b.(negative := !b.negative), rm)
  }

  lemma SubtractIsCorrect(f: Format, a: Float, b: Float, rm: Mode)
    requires Supported(f) && Finite(f, a) && Finite(f, b)
    ensures var d := Signed(f, a) - Signed(f, b);
            Correct(f, Magn(d), rm,
                    if d != 0.0 then d < 0.0 else if a.negative != b.negative then a.negative else rm == RDN,
                    Subtract(f, a, b, rm))
  {
    AddIsCorrect(f, a, b.(negative := !b.negative), rm);
    NegatedSign(f, a, b, rm);
  }

  lemma NegatedSign(f: Format, a: Float, b: Float, rm: Mode)
    requires Supported(f)
    ensures var c, d := b.(negative := !b.negative), Signed(f, a) - Signed(f, b);
            && Signed(f, a) + Signed(f, c) == d
            && SumSign(f, a, c, rm)
               == if d != 0.0 then d < 0.0 else if a.negative != b.negative then a.negative else rm == RDN
  {
    assert Value(f, b.(negative := !b.negative)) == Value(f, b);
  }

  lemma ExpTimes(f: Format, i: nat, j: nat)
    requires i <= j
    ensures i * Pow2(f.mantBits) <= j * Pow2(f.mantBits)
    ensures i < j ==> i * Pow2(f.mantBits) + Pow2(f.mantBits) <= j * Pow2(f.mantBits)
  {
    TimesMonotone(i, j, Pow2(f.mantBits));
    if i < j { TimesMonotone(i + 1, j, Pow2(f.mantBits)); }
  }

  /** Infinities and NaNs: quiet NaN for any NaN and for opposite infinities, else the infinity. */
  lemma AddOnSpecials(f: Format, a: Float, b: Float, rm: Mode)
    requires Supported(f) && WellFormed(f, a) && WellFormed(f, b) && (!Finite(f, a) || !Finite(f, b))
    ensures var r := Add(f, a, b, rm);
            if IsNan(f, a) || IsNan(f, b) then
              r == Outcome(QuietNan(f), if IsSignalling(f, a) || IsSignalling(f, b) then {InvalidOp} else {})
            else if IsInfinite(f, a) && IsInfinite(f, b) && a.negative != b.negative then
              r == Outcome(QuietNan(f), {InvalidOp})
            else r == Outcome(if IsInfinite(f, a) then a else b, {})
  {
    if a.exp <= b.exp { ExpTimes(f, a.exp, b.exp); }
    if b.exp <= a.exp { ExpTimes(f, b.exp, a.exp); }
  }

  // -------------------------------------------------------------- multiplication

  /** Whether x is the product of u and v. */
  ghost function Product(x: real, u: real, v: real): Verdict {
    if x == u * v then Sound else Unsound
  }

  lemma DoubleFirst(x: real, y: real, u: real)
    requires u == 2.0 * x
    ensures u * y == 2.0 * (x * y)
  {
  }

  lemma {:induction false} ScaleTimes(x: real, y: real, b: int, p: real)
    requires p == x * y
    ensures x * Scale(y, b) == Scale(p, b)
    decreases if b < 0 then -b else b
  {
    if b > 0 {
      ScaleTimes(x, y, b - 1, p);
      DoubleFirst(Scale(y, b - 1), x, Scale(y, b));
    } else if b < 0 {
      ScaleTimes(x, y, b + 1, p);
      DoubleFirst(Scale(y, b), x, Scale(y, b + 1));
    }
  }

  lemma ScaleTimesFact(x: real, y: real, b: int, p: real)
    requires Product(p, x, y).Sound?
    ensures Product(Scale(p, b), x, Scale(y, b)).Sound?
  {
    ScaleTimes(x, y, b, p);
  }

  lemma ProductSwaps(p: real, x: real, y: real)
    requires Product(p, x, y).Sound?
    ensures Product(p, y, x).Sound?
  {
  }

  lemma ScaleProductFact(x: real, y: real, a: int, b: int, p: real)
    requires Product(p, x, y).Sound?
    ensures Product(Scale(p, a + b), Scale(x, a), Scale(y, b)).Sound?
  {
    ProductSwaps(p, x, y);
    ScaleTimesFact(y, x, a, p);
    ProductSwaps(Scale(p, a), y, Scale(x, a));
    ScaleTimesFact(Scale(x, a), y, b, Scale(p, a));
    ScaleAdd(p, a, b);
  }

  lemma ScaleProduct(x: real, y: real, a: int, b: int, p: real)
    requires p == x * y
    ensures Scale(x, a) * Scale(y, b) == Scale(p, a + b)
  {
    ScaleProductFact(x, y, a, b, p);
  }

  /** The normalised mantissa and exponent stand for the same value. */
  lemma NormalizedValue(f: Format, a: Float)
    requires Supported(f) && a.mant < Pow2(f.mantBits)
    ensures Value(f, a) == Scale(Normalized(f, a).1 as real, Normalized(f, a).0 - Bias(f) - f.mantBits)
  {
    if a.exp == 0 {
      BitLengthBound(a.mant, f.mantBits);
      var s := f.mantBits + 1 - BitLength(a.mant);
      ScaleNat(a.mant, s);
      ScaleAdd(a.mant as real, s, 1 - s - Bias(f) - f.mantBits);
    }
  }

  lemma CastProduct(a: nat, b: nat)
    ensures (a * b) as real == a as real * b as real
  {
  }

  lemma CastFact(a: nat, b: nat)
    ensures Product((a * b) as real, a as real, b as real).Sound?
  {
    CastProduct(a, b);
  }

  /** The exact product as a scaled product of mantissas. */
  lemma ProductExact(f: Format, a: Float, b: Float, x: real, c: nat)
    requires Supported(f) && Finite(f, a) && Finite(f, b) && Product(x, Value(f, a), Value(f, b)).Sound?
    requires Product(c as real, Normalized(f, a).1 as real, Normalized(f, b).1 as real).Sound?
    ensures x == Scale(c as real, Normalized(f, a).0 + Normalized(f, b).0 - 2 * Bias(f) - 2 * f.mantBits)
  {
    NormalizedValue(f, a);
    NormalizedValue(f, b);
    MantissaProduct(x, Value(f, a), Value(f, b), Normalized(f, a).1, Normalized(f, b).1,
                    Normalized(f, a).0 - Bias(f) - f.mantBits, Normalized(f, b).0 - Bias(f) - f.mantBits, c);
  }

  /** The exact product at the scale of the code's word. */
  lemma ProductScale(f: Format, e: int, x: real, c: nat)
    requires Supported(f) && x == Scale(c as real, e - 2 * Bias(f) - 2 * f.mantBits)
    ensures Scale(x, WordScale(f, e - Pow2(f.expBits - 1) + 2)) == Scale(c as real, Rnd(f) - 1 - f.mantBits)
  {
    ScaleAdd(c as real, e - 2 * Bias(f) - 2 * f.mantBits, WordScale(f, e - Pow2(f.expBits - 1) + 2));
  }

  lemma MantissaProduct(x: real, u: real, v: real, a: nat, b: nat, i: int, j: int, c: nat)
    requires Product(x, u, v).Sound? && Product(c as real, a as real, b as real).Sound?
    requires u == Scale(a as real, i) && v == Scale(b as real, j)
    ensures x == Scale(c as real, i + j)
  {
    ScaleProduct(a as real, b as real, i, j, c as real);
  }

  /** The high word with the low word in its sticky bit. */
  lemma ProductJams(f: Format, c: nat, product: nat)
    requires Supported(f) && product == ShiftLeft(c, 2 * Rnd(f) + 1)
    ensures Jams(Sticky(product, Size(f)), Scale(c as real, Rnd(f) - 1 - f.mantBits))
  {
    StickyJams(product, product as real, Size(f));
    ScaleNat(c, 2 * Rnd(f) + 1);
    ScaleAdd(c as real, 2 * Rnd(f) + 1, -(Size(f) as int));
  }

  /** The code's word stands for the exact product. */
  lemma ProductStands(f: Format, a: Float, b: Float, x: real)
    requires Supported(f) && Finite(f, a) && Finite(f, b) && !IsZero(a) && !IsZero(b)
             && Product(x, Value(f, a), Value(f, b)).Sound?
    ensures Jams(ProductWord(f, a, b), Scale(x, WordScale(f, ProductExp(f, a, b))))
  {
    ProductFits(f, a, b);
    ProductWordFits(f, a, b);
    ProductAtScale(f, a, b, x);
    WordJams(f, ProductWord(f, a, b), DoubleProduct(f, a, b), MantProduct(f, a, b), x, ProductExp(f, a, b));
  }

  lemma WordJams(f: Format, word: nat, product: nat, c: nat, x: real, exp: int)
    requires Supported(f) && word == Sticky(product, Size(f)) && product == ShiftLeft(c, 2 * Rnd(f) + 1)
    requires Scale(x, WordScale(f, exp)) == Scale(c as real, Rnd(f) - 1 - f.mantBits)
    ensures Jams(word, Scale(x, WordScale(f, exp)))
  {
    ProductJams(f, c, product);
  }

  lemma ProductAtScale(f: Format, a: Float, b: Float, x: real)
    requires Supported(f) && Finite(f, a) && Finite(f, b) && Product(x, Value(f, a), Value(f, b)).Sound?
    ensures Scale(x, WordScale(f, ProductExp(f, a, b))) == Scale(MantProduct(f, a, b) as real, Rnd(f) - 1 - f.mantBits)
  {
    CastFact(Normalized(f, a).1, Normalized(f, b).1);
    ProductExact(f, a, b, x, MantProduct(f, a, b));
    ProductScale(f, Normalized(f, a).0 + Normalized(f, b).0, x, MantProduct(f, a, b));
  }

  lemma MultiplyFiniteIsCorrect(f: Format, a: Float, b: Float, rm: Mode, x: real)
    requires Supported(f) && Finite(f, a) && Finite(f, b) && !IsZero(a) && !IsZero(b)
             && Product(x, Value(f, a), Value(f, b)).Sound?
    ensures Correct(f, x, rm, a.negative != b.negative, MultiplyFinite(f, a, b, rm))
  {
    ProductStands(f, a, b, x);
    ProductWordFits(f, a, b);
    WordIsCorrect(f, ProductWord(f, a, b), ProductExp(f, a, b), a.negative != b.negative, rm, x);
  }

  lemma ZeroValue(f: Format, a: Float)
    requires Supported(f) && IsZero(a)
    ensures Value(f, a) == 0.0
  {
    ScaleSum(0.0, 0.0, Exponent(a) - Bias(f) - f.mantBits);
  }

  /** Multiplication of any two finite numbers is correctly rounded, in every mode. */
  lemma MultiplyIsCorrect(f: Format, a: Float, b: Float, rm: Mode)
    requires Supported(f) && Finite(f, a) && Finite(f, b)
    ensures Correct(f, Value(f, a) * Value(f, b), rm, a.negative != b.negative, Multiply(f, a, b, rm))
  {
    MultiplyAt(f, a, b, rm, Value(f, a) * Value(f, b));
  }

  lemma MultiplyAt(f: Format, a: Float, b: Float, rm: Mode, x: real)
    requires Supported(f) && Finite(f, a) && Finite(f, b) && Product(x, Value(f, a), Value(f, b)).Sound?
    ensures Correct(f, x, rm, a.negative != b.negative, Multiply(f, a, b, rm))
  {
    if IsZero(a) || IsZero(b) {
      if IsZero(a) { ZeroValue(f, a); } else { ZeroValue(f, b); }
      TimesZero(Value(f, a), Value(f, b), x);
      ZeroIsCorrect(f, a.negative != b.negative, rm);
    } else {
      MultiplyFiniteIsCorrect(f, a, b, rm, x);
    }
  }

  lemma TimesZero(u: real, v: real, x: real)
    requires x == u * v && (u == 0.0 || v == 0.0)
    ensures x == 0.0
  {
  }

  // -------------------------------------------------------------------- division

  lemma PositiveValue(f: Format, a: Float)
    requires Supported(f) && Finite(f, a) && !IsZero(a)
    ensures Value(f, a) > 0.0
  {
    ScaleLess(0.0, Significand(f, a) as real, Exponent(a) - Bias(f) - f.mantBits);
    ScaleSum(0.0, 0.0, Exponent(a) - Bias(f) - f.mantBits);
  }

  lemma Cancel(x: real, y: real, d: real)
    requires d > 0.0 && x * d == y * d
    ensures x == y
  {
  }

  lemma DivideTimes(x: real, d: real, q: real)
    requires d > 0.0 && q == x / d
    ensures Product(x, q, d).Sound?
  {
  }

  lemma CancelFact(x: real, y: real, v: real, u: real)
    requires v > 0.0 && Product(u, x, v).Sound? && Product(u, y, v).Sound?
    ensures x == y
  {
    Cancel(x, y, v);
  }

  lemma ScaleQuotient(x: real, u: real, v: real, a: nat, b: nat, i: int, j: int, t: real)
    requires v > 0.0 && Product(u, x, v).Sound? && Product(a as real, t, b as real).Sound?
    requires u == Scale(a as real, i) && v == Scale(b as real, j)
    ensures x == Scale(t, i - j)
  {
    ScaleProductFact(t, b as real, i - j, j, a as real);
    CancelFact(x, Scale(t, i - j), v, u);
  }

  /** The exact quotient as a scaled quotient of mantissas. */
  lemma QuotientExact(f: Format, a: Float, b: Float, x: real, t: real)
    requires Supported(f) && Finite(f, a) && Finite(f, b) && !IsZero(b) && Product(Value(f, a), x, Value(f, b)).Sound?
    requires Product(Normalized(f, a).1 as real, t, Normalized(f, b).1 as real).Sound?
    ensures x == Scale(t, Normalized(f, a).0 - Normalized(f, b).0)
  {
    PositiveValue(f, b);
    NormalizedValue(f, a);
    NormalizedValue(f, b);
    ScaleQuotient(x, Value(f, a), Value(f, b), Normalized(f, a).1, Normalized(f, b).1,
                  Normalized(f, a).0 - Bias(f) - f.mantBits, Normalized(f, b).0 - Bias(f) - f.mantBits, t);
  }

  /** The exact quotient at the scale of the code's word. */
  lemma QuotientScale(f: Format, e: int, x: real, t: real)
    requires Supported(f) && x == Scale(t, e)
    ensures Scale(x, WordScale(f, e + Pow2(f.expBits - 1) - 1)) == Scale(t, Size(f) - 2)
  {
    ScaleAdd(t, e, WordScale(f, e + Pow2(f.expBits - 1) - 1));
  }

  lemma TimesLess(a: real, b: real, d: real)
    requires d > 0.0 && a < b
    ensures a * d < b * d
  {
  }

  lemma TimesLe(a: real, b: real, d: real)
    requires d >= 0.0 && a <= b
    ensures a * d <= b * d
  {
  }

  lemma BelowOne(t: real, d: real, r: real)
    requires d > 0.0 && t * d == r && r < d
    ensures t < 1.0
  {
    if t >= 1.0 { TimesLe(1.0, t, d); }
  }

  lemma NotNegative(t: real, d: real, r: real)
    requires d > 0.0 && t * d == r && 0.0 <= r
    ensures 0.0 <= t
  {
    if t < 0.0 { TimesLess(t, 0.0, d); }
  }

  lemma ZeroOnly(t: real, d: real, r: real)
    requires d > 0.0 && t * d == r
    ensures t == 0.0 <==> r == 0.0
  {
  }

  /** The quotient with its remainder in the sticky bit stands for the exact quotient. */
  lemma QuotientJams(q: nat, r: nat, n: nat, d: nat, y: real)
    requires d > 0 && n == d * q + r && r < d && Product(n as real, y, d as real).Sound?
    ensures Jams(SetSticky(q, r != 0), y)
  {
    var t := y - q as real;
    RemainderOf(q, r, n, d, y);
    BelowOne(t, d as real, r as real);
    NotNegative(t, d as real, r as real);
    ZeroOnly(t, d as real, r as real);
    StickyJamsFloor(q, r == 0, y);
  }

  lemma RemainderOf(q: nat, r: nat, n: nat, d: nat, y: real)
    requires n == d * q + r && Product(n as real, y, d as real).Sound?
    ensures (y - q as real) * d as real == r as real
  {
    CastProduct(d, q);
  }

  lemma StickyJamsFloor(q: nat, exact: bool, y: real)
    requires q as real <= y < q as real + 1.0 && (y == q as real <==> exact)
    ensures Jams(SetSticky(q, !exact), y)
  {
  }

  /** The quotient of the shifted mantissas, as the code divides them. */
  lemma QuotientIs(s: nat, a: nat, b: nat, t: real)
    requires b > 0 && s >= 2 && Product(a as real, t, b as real).Sound?
    ensures Product((a * Pow2(s)) as real, Scale(t, s - 2), (4 * b) as real).Sound?
  {
    ScaleFact(t, b as real, s - 2, a as real);
    ScaleNat(a, s - 2);
    Pow2Five(s - 2);
    FourTimesPow(a, Pow2(s - 2), Pow2(s));
    FourTimesOf(Scale(t, s - 2), b, a * Pow2(s - 2), a * Pow2(s));
  }

  lemma ScaleFact(t: real, b: real, k: int, a: real)
    requires Product(a, t, b).Sound?
    ensures Product(Scale(a, k), Scale(t, k), b).Sound?
  {
    ScaleTimes(b, t, k, a);
  }

  lemma FourTimesPow(a: nat, p: nat, q: nat)
    requires q == 4 * p
    ensures a * q == 4 * (a * p)
  {
  }

  lemma FourTimesOf(y: real, b: nat, n: nat, n4: nat)
    requires Product(n as real, y, b as real).Sound? && n4 == 4 * n
    ensures Product(n4 as real, y, (4 * b) as real).Sound?
  {
    assert (4 * b) as real == 4.0 * b as real;
  }

  lemma DivideFiniteIsCorrect(f: Format, a: Float, b: Float, rm: Mode, x: real)
    requires Supported(f) && Finite(f, a) && Finite(f, b) && !IsZero(a) && !IsZero(b)
             && Product(Value(f, a), x, Value(f, b)).Sound?
    ensures Correct(f, x, rm, a.negative != b.negative, DivideFinite(f, a, b, rm))
  {
    QuotientWordFits(f, a, b);
    QuotientStands(f, a, b, x);
    WordIsCorrect(f, QuotientWord(f, a, b), QuotientExp(f, a, b), a.negative != b.negative, rm, x);
  }

  /** The code's word stands for the exact quotient. */
  lemma QuotientStands(f: Format, a: Float, b: Float, x: real)
    requires Supported(f) && Finite(f, a) && Finite(f, b) && !IsZero(b) && Product(Value(f, a), x, Value(f, b)).Sound?
    ensures Jams(QuotientWord(f, a, b), Scale(x, WordScale(f, QuotientExp(f, a, b))))
  {
    NormalizedBounds(f, b);
    var t := RatioOf(Normalized(f, a).1, Normalized(f, b).1);
    QuotientExact(f, a, b, x, t);
    QuotientScale(f, Normalized(f, a).0 - Normalized(f, b).0, x, t);
    MantissaQuotientJams(Size(f), Normalized(f, a).1, Normalized(f, b).1, t);
  }

  lemma RatioOf(a: nat, b: nat) returns (t: real)
    requires b > 0
    ensures Product(a as real, t, b as real).Sound?
  {
    t := a as real / b as real;
    DivideTimes(a as real, b as real, t);
  }

  lemma MantissaQuotientJams(s: nat, a: nat, b: nat, t: real)
    requires b > 0 && s >= 2 && Product(a as real, t, b as real).Sound?
    ensures Jams(StickyQuotient(ShiftLeft(a, s), 4 * b), Scale(t, s - 2))
  {
    var n, d := ShiftLeft(a, s), 4 * b;
    QuotientIs(s, a, b, t);
    QuotientFacts(n, d);
    QuotientJams(n / d, n % d, n, d, Scale(t, s - 2));
  }

  lemma WordIsCorrect(f: Format, m: nat, exp: int, negative: bool, rm: Mode, x: real)
    requires Supported(f) && Pow2(Size(f) - 3) <= m < Pow2(Size(f) - 1) && Jams(m, Scale(x, WordScale(f, exp)))
    ensures Correct(f, x, rm, negative, Normalize(f, negative, exp, m, rm))
  {
    Pow2Monotone(f.mantBits + 2, Size(f) - 3);
    NormalizeIsCorrect(f, negative, exp, m, rm, x);
  }

  /** Division by a finite nonzero number is correctly rounded, in every mode. */
  lemma DivideIsCorrect(f: Format, a: Float, b: Float, rm: Mode)
    requires Supported(f) && Finite(f, a) && Finite(f, b) && !IsZero(b)
    ensures Value(f, b) > 0.0
    ensures Correct(f, Value(f, a) / Value(f, b), rm, a.negative != b.negative, Divide(f, a, b, rm))
  {
    PositiveValue(f, b);
    var x := Value(f, a) / Value(f, b);
    DivideTimes(Value(f, a), Value(f, b), x);
    if IsZero(a) {
      ZeroValue(f, a);
      Cancel(x, 0.0, Value(f, b));
      ZeroIsCorrect(f, a.negative != b.negative, rm);
    } else {
      DivideFiniteIsCorrect(f, a, b, rm, x);
    }
  }

  // ----------------------------------------------------------------- square root

  lemma RootCompare(y: real, r: real)
    requires y >= 0.0 && r >= 0.0
    ensures y * y < r * r <==> y < r
    ensures y * y == r * r <==> y == r
  {
    if y < r { SquareLess(y, r); }
    if r < y { SquareLess(r, y); }
  }

  lemma SquareLess(y: real, r: real)
    requires 0.0 <= y < r
    ensures y * y < r * r
  {
    TimesLess(y, r, r + y);
    assert y * (r + y) == y * r + y * y;
    assert r * (r + y) == r * r + r * y;
  }

  /** The exact root lies in the cell of the floor root. */
  lemma RootBetween(square: nat, r: nat, y: real)
    requires y >= 0.0 && y * y == square as real && r * r <= square < (r + 1) * (r + 1)
    ensures r as real <= y < (r + 1) as real && (y == r as real <==> r * r == square)
  {
    CastProduct(r, r);
    CastProduct(r + 1, r + 1);
    RootCompare(y, r as real);
    RootCompare(y, (r + 1) as real);
  }

  /** The floor root with its inexactness in the sticky bit stands for the exact root. */
  lemma RootJams(square: nat, y: real)
    requires y >= 0.0 && Product(square as real, y, y).Sound?
    ensures Jams(StickyRoot(square), y)
  {
    var r := FloorRoot(square);
    RootBetween(square, r, y);
    StickyJamsFloor(r, r * r == square, y);
  }

  /** The square of the exact root at the scale of the code's word. */
  lemma RootScale(f: Format, a: Float, x: real)
    requires Supported(f) && Finite(f, a) && !IsZero(a) && Product(Value(f, a), x, x).Sound?
    ensures var y := Scale(x, WordScale(f, Radicand(f, a).0));
            Product(Square(f, a) as real, y, y).Sound?
  {
    SquareIs(f, a);
    RadicandValue(f, a);
    ScaleSquare(x, WordScale(f, Radicand(f, a).0), Value(f, a));
    RadicandScale(f, Radicand(f, a).0, Radicand(f, a).1, Value(f, a));
  }

  lemma ScaleSquare(x: real, k: int, v: real)
    requires Product(v, x, x).Sound?
    ensures Product(Scale(v, k + k), Scale(x, k), Scale(x, k)).Sound?
  {
    ScaleProduct(x, x, k, k, v);
  }

  lemma RadicandScale(f: Format, exp: int, m: nat, v: real)
    requires Supported(f) && v == Scale(m as real, 2 * (exp - Bias(f)) - f.mantBits)
    ensures Scale(v, WordScale(f, exp) + WordScale(f, exp)) == (m * Pow2(2 * Size(f) - 4 - f.mantBits)) as real
  {
    ScaleAdd(m as real, 2 * (exp - Bias(f)) - f.mantBits, 2 * WordScale(f, exp));
    ScaleNat(m, 2 * Size(f) - 4 - f.mantBits);
  }

  lemma RadicandValue(f: Format, a: Float)
    requires Supported(f) && a.mant < Pow2(f.mantBits)
    ensures Value(f, a) == Scale(Radicand(f, a).1 as real, 2 * (Radicand(f, a).0 - Bias(f)) - f.mantBits)
  {
    NormalizedValue(f, a);
    var (exp, mant) := Normalized(f, a);
    var k := exp - Bias(f) - f.mantBits;
    if (exp - Bias(f)) % 2 == 1 {
      ScaleAdd(mant as real, 1, k - 1);
      assert Scale(mant as real, 1) == (2 * mant) as real;
    }
  }

  /** The code's root word stands for the exact root. */
  lemma RootStands(f: Format, a: Float, x: real)
    requires Supported(f) && Finite(f, a) && !IsZero(a) && x >= 0.0 && Product(Value(f, a), x, x).Sound?
    ensures Jams(StickyRoot(Square(f, a)), Scale(x, WordScale(f, Radicand(f, a).0)))
  {
    RootScale(f, a, x);
    ScaleLess(0.0, x, WordScale(f, Radicand(f, a).0));
    ScaleSum(0.0, 0.0, WordScale(f, Radicand(f, a).0));
    RootJams(Square(f, a), Scale(x, WordScale(f, Radicand(f, a).0)));
  }

  lemma SquareRootFiniteIsCorrect(f: Format, a: Float, rm: Mode, x: real)
    requires Supported(f) && Finite(f, a) && !IsZero(a) && x >= 0.0 && Product(Value(f, a), x, x).Sound?
    ensures Correct(f, x, rm, false, SquareRootFinite(f, a, rm))
  {
    RootStands(f, a, x);
    RootFits(f, a);
    Pow2Monotone(Size(f) - 3, Size(f) - 2);
    WordIsCorrect(f, StickyRoot(Square(f, a)), Radicand(f, a).0, false, rm, x);
  }

  /** The square root of any positive finite number is correctly rounded, in every mode. */
  lemma SquareRootIsCorrect(f: Format, a: Float, rm: Mode, x: real)
    requires Supported(f) && Finite(f, a) && !IsZero(a) && !a.negative
    requires x >= 0.0 && x * x == Value(f, a)
    ensures Correct(f, x, rm, false, SquareRoot(f, a, rm))
  {
    SquareRootFiniteIsCorrect(f, a, rm, x);
  }

  // ------------------------------------------------------------------ special operands

  /** The outcome of an operation with a NaN operand. */
  function NanOutcome(f: Format, signalling: bool): Outcome
    requires Supported(f)
  {
    Outcome(QuietNan(f), if signalling then {InvalidOp} else {})
  }

  /** Quotients with a zero, infinite or NaN operand: 0/0 and inf/inf are invalid, x/0 signals division by zero. */
  lemma DivideOnSpecials(f: Format, a: Float, b: Float, rm: Mode)
    requires Supported(f) && WellFormed(f, a) && WellFormed(f, b) && (!Finite(f, a) || !Finite(f, b) || IsZero(b))
    ensures var r := Divide(f, a, b, rm);
            if IsNan(f, a) || IsNan(f, b) then r == NanOutcome(f, IsSignalling(f, a) || IsSignalling(f, b))
            else if (IsZero(a) && IsZero(b)) || (IsInfinite(f, a) && IsInfinite(f, b)) then r == NanOutcome(f, true)
            else if IsInfinite(f, b) then
              IsZero(r.float) && r.float.negative == (a.negative != b.negative) && r.flags == {}
            else IsInfinite(f, r.float) && r.float.negative == (a.negative != b.negative)
                 && r.flags == if IsInfinite(f, a) then {} else {DivideZero}
  {
    Pow2Monotone(1, f.expBits);
  }
}
