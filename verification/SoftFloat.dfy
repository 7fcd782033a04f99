/**
 The arithmetic of tinyemu-core/softfp_template.h on decoded words, for any mantissa
 and exponent width with room for the rounding bits.
 */
module SoftFloat {
  import opened Arithmetic
  import opened FloatRounding

  datatype Format = Format(mantBits: nat, expBits: nat)

  /** Binary32, binary64 and binary128 all qualify. */
  predicate Supported(f: Format) {
    f.mantBits >= 1 && f.expBits >= 5
  }

  datatype Float = Float(negative: bool, exp: nat, mant: nat)

  datatype Flag = InvalidOp | DivideZero | Overflow | Underflow | Inexact

  datatype Outcome = Outcome(float: Float, flags: set<Flag>)

  function Size(f: Format): nat { f.mantBits + f.expBits + 1 }

  function ExpMask(f: Format): nat { Pow2(f.expBits) - 1 }

  function Rnd(f: Format): nat
    requires Supported(f)
  {
    f.expBits - 1
  }

  function Bias(f: Format): nat
    requires Supported(f)
  {
    Pow2(f.expBits - 1) - 1
  }

  predicate WellFormed(f: Format, a: Float) {
    a.exp <= ExpMask(f) && a.mant < Pow2(f.mantBits)
  }

  predicate Finite(f: Format, a: Float) {
    a.exp < ExpMask(f) && a.mant < Pow2(f.mantBits)
  }

  predicate IsNan(f: Format, a: Float) { a.exp == ExpMask(f) && a.mant != 0 }

  predicate IsInfinite(f: Format, a: Float) { a.exp == ExpMask(f) && a.mant == 0 }

  predicate IsSignalling(f: Format, a: Float)
    requires Supported(f)
  {
    IsNan(f, a) && a.mant / Pow2(f.mantBits - 1) % 2 == 0
  }

  predicate IsZero(a: Float) { a.exp == 0 && a.mant == 0 }

  function QuietNan(f: Format): Float
    requires Supported(f)
  {
    Float(false, ExpMask(f), Pow2(f.mantBits - 1))
  }

  // ------------------------------------------------------------------- the words

  function Pack(f: Format, a: Float): nat {
    (if a.negative then Pow2(f.mantBits + f.expBits) else 0) + a.exp * Pow2(f.mantBits) + a.mant % Pow2(f.mantBits)
  }

  function Unpack(f: Format, w: nat): Float {
    Float(w / Pow2(f.mantBits + f.expBits) % 2 == 1, w / Pow2(f.mantBits) % Pow2(f.expBits), w % Pow2(f.mantBits))
  }

  // ------------------------------------------------------------------- rounding

  function RshiftRnd(f: Format, a: nat, d: nat): nat {
    QuotientFacts(a, Pow2(d));
    if d == 0 then a
    else if d >= Size(f) then (if a != 0 then 1 else 0)
    else if a % Pow2(d) != 0 && a / Pow2(d) % 2 == 0 then a / Pow2(d) + 1
    else a / Pow2(d)
  }

  function Addend(r: nat, rm: Mode, negative: bool): nat
    requires r > 0
  {
    match rm
    case RNE => Pow2(r - 1)
    case RMM => Pow2(r - 1)
    case RTZ => 0
    case RDN => if negative then Pow2(r) - 1 else 0
    case RUP => if !negative then Pow2(r) - 1 else 0
  }

  /** The mantissa without its r rounding bits, rounded. */
  function RoundMant(m: nat, r: nat, rm: Mode, negative: bool): nat
    requires r > 0
  {
    QuotientFacts(m + Addend(r, rm, negative), Pow2(r));
    var n := (m + Addend(r, rm, negative)) / Pow2(r);
    if rm.RNE? && m % Pow2(r) == Pow2(r - 1) then n - n % 2 else n
  }

  function RoundPack(f: Format, negative: bool, exp: int, mant: nat, rm: Mode): Outcome
    requires Supported(f)
  {
    var addend := Addend(Rnd(f), rm, negative);
    var tiny := exp < 0 || (exp == 0 && mant + addend < Pow2(Size(f) - 1));
    var m := if exp <= 0 then RshiftRnd(f, mant, 1 - exp) else mant;
    var lost := m % Pow2(Rnd(f)) != 0;
    var n := RoundMant(m, Rnd(f), rm, negative);
    QuotientFacts(n, Pow2(f.mantBits + 1));
    QuotientFacts(n, Pow2(f.mantBits));
    var e := (if exp <= 0 then 1 else exp) + n / Pow2(f.mantBits + 1);
    var flags := (if tiny && lost then {Underflow} else {}) + (if lost then {Inexact} else {});
    if n < Pow2(f.mantBits) then Outcome(Float(negative, 0, n), flags)
    else if e >= ExpMask(f) then
      Outcome(if addend == 0 then Float(negative, ExpMask(f) - 1, Pow2(f.mantBits) - 1)
              else Float(negative, ExpMask(f), 0),
              flags + {Overflow, Inexact})
    else Outcome(Float(negative, e, n % Pow2(f.mantBits)), flags)
  }

  function BitLength(m: nat): nat {
    if m == 0 then 0 else 1 + BitLength(m / 2)
  }

  /** Leading zeros of an F_SIZE-bit word; all of them for zero. */
  function Clz(f: Format, m: nat): int {
    Size(f) - BitLength(m)
  }

  function Normalize(f: Format, negative: bool, exp: int, mant: nat, rm: Mode): Outcome
    requires Supported(f) && mant < Pow2(Size(f) - 1)
  {
    BitLengthBound(mant, Size(f) - 1);
    var shift := Clz(f, mant) - 1;
    RoundPack(f, negative, exp - shift, mant * Pow2(shift), rm)
  }

  lemma {:induction false} BitLengthBound(m: nat, k: nat)
    requires m < Pow2(k)
    ensures BitLength(m) <= k
    decreases k
  {
    if m > 0 { BitLengthBound(m / 2, k - 1); }
  }

  // ------------------------------------------------------------------ operations

  function Significand(f: Format, a: Float): nat {
    if a.exp == 0 then a.mant else a.mant + Pow2(f.mantBits)
  }

  function Exponent(a: Float): nat {
    if a.exp == 0 then 1 else a.exp
  }

  /** The word without its sign bit, by which magnitudes are compared. */
  function Magnitude(f: Format, a: Float): nat {
    a.exp * Pow2(f.mantBits) + a.mant
  }

  function Add(f: Format, x: Float, y: Float, rm: Mode): Outcome
    requires Supported(f) && WellFormed(f, x) && WellFormed(f, y)
  {
    var swapped := Magnitude(f, x) < Magnitude(f, y);
    var a, b := if swapped then y else x, if swapped then x else y;
    if a.exp == ExpMask(f) then
      if a.mant != 0 then
        Outcome(QuietNan(f), if IsSignalling(f, a) || IsSignalling(f, b) then {InvalidOp} else {})
      else if b.exp == ExpMask(f) && a.negative != b.negative then Outcome(QuietNan(f), {InvalidOp})
      else Outcome(a, {})
    else
      AddOrdered(f, a, b, rm)
  }

  /** The finite case, the larger magnitude first. */
  function AddOrdered(f: Format, a: Float, b: Float, rm: Mode): Outcome
    requires Supported(f) && Finite(f, a) && WellFormed(f, b) && Magnitude(f, b) <= Magnitude(f, a)
  {
    AddFits(f, a, b);
    var shifted := RshiftRnd(f, 8 * Significand(f, b), Exponent(a) - Exponent(b));
    var same := a.negative == b.negative;
    var m: nat := if same then 8 * Significand(f, a) + shifted else 8 * Significand(f, a) - shifted;
    var negative := if !same && m == 0 then rm == RDN else a.negative;
    Normalize(f, negative, Exponent(a) + Rnd(f) - 3, m, rm)
  }

  /** Exponent and mantissa with the leading bit in place. */
  function Normalized(f: Format, a: Float): (r: (int, nat))
    requires Supported(f) && a.mant < Pow2(f.mantBits)
  {
    if a.exp == 0 then
      BitLengthBound(a.mant, f.mantBits);
      var shift := f.mantBits - (Size(f) - 1 - Clz(f, a.mant));
      (1 - shift, a.mant * Pow2(shift))
    else (a.exp, a.mant + Pow2(f.mantBits))
  }

  function Multiply(f: Format, a: Float, b: Float, rm: Mode): Outcome
    requires Supported(f) && WellFormed(f, a) && WellFormed(f, b)
  {
    var negative := a.negative != b.negative;
    if a.exp == ExpMask(f) || b.exp == ExpMask(f) then
      if IsNan(f, a) || IsNan(f, b) then
        Outcome(QuietNan(f), if IsSignalling(f, a) || IsSignalling(f, b) then {InvalidOp} else {})
      else if IsZero(a) || IsZero(b) then Outcome(QuietNan(f), {InvalidOp})
      else Outcome(Float(negative, ExpMask(f), 0), {})
    else if IsZero(a) || IsZero(b) then Outcome(Float(negative, 0, 0), {})
    else MultiplyFinite(f, a, b, rm)
  }

  function MultiplyFinite(f: Format, a: Float, b: Float, rm: Mode): Outcome
    requires Supported(f) && Finite(f, a) && Finite(f, b) && !IsZero(a) && !IsZero(b)
  {
    ProductWordFits(f, a, b);
    Normalize(f, a.negative != b.negative, ProductExp(f, a, b), ProductWord(f, a, b), rm)
  }

  function ProductExp(f: Format, a: Float, b: Float): int
    requires Supported(f) && a.mant < Pow2(f.mantBits) && b.mant < Pow2(f.mantBits)
  {
    Normalized(f, a).0 + Normalized(f, b).0 - Pow2(f.expBits - 1) + 2
  }

  function MantProduct(f: Format, a: Float, b: Float): nat
    requires Supported(f) && a.mant < Pow2(f.mantBits) && b.mant < Pow2(f.mantBits)
  {
    ProductOf(Normalized(f, a).1, Normalized(f, b).1)
  }

  /** The double-word product of the shifted mantissas. */
  function DoubleProduct(f: Format, a: Float, b: Float): nat
    requires Supported(f) && a.mant < Pow2(f.mantBits) && b.mant < Pow2(f.mantBits)
  {
    ProductOf(ShiftLeft(Normalized(f, a).1, Rnd(f)), ShiftLeft(Normalized(f, b).1, Rnd(f) + 1))
  }

  /** Its high word, with a nonzero low word in the sticky bit. */
  function ProductWord(f: Format, a: Float, b: Float): nat
    requires Supported(f) && a.mant < Pow2(f.mantBits) && b.mant < Pow2(f.mantBits)
  {
    StickyHigh(DoubleProduct(f, a, b), Size(f))
  }

  /** The part of a product above its low s bits, which survive as the sticky bit. */
  function StickyHigh(product: nat, s: nat): nat {
    QuotientFacts(product, Pow2(s));
    SetSticky(product / Pow2(s), product % Pow2(s) != 0)
  }

  function Divide(f: Format, a: Float, b: Float, rm: Mode): Outcome
    requires Supported(f) && WellFormed(f, a) && WellFormed(f, b)
  {
    var negative := a.negative != b.negative;
    var invalid := if IsSignalling(f, a) || IsSignalling(f, b) then {InvalidOp} else {};
    if a.exp == ExpMask(f) then
      if a.mant != 0 || IsNan(f, b) then Outcome(QuietNan(f), invalid)
      else if b.exp == ExpMask(f) then Outcome(QuietNan(f), {InvalidOp})
      else Outcome(Float(negative, ExpMask(f), 0), {})
    else if b.exp == ExpMask(f) then
      if b.mant != 0 then Outcome(QuietNan(f), invalid) else Outcome(Float(negative, 0, 0), {})
    else if IsZero(b) then
      if IsZero(a) then Outcome(QuietNan(f), {InvalidOp}) else Outcome(Float(negative, ExpMask(f), 0), {DivideZero})
    else if IsZero(a) then Outcome(Float(negative, 0, 0), {})
    else DivideFinite(f, a, b, rm)
  }

  function DivideFinite(f: Format, a: Float, b: Float, rm: Mode): Outcome
    requires Supported(f) && Finite(f, a) && Finite(f, b) && !IsZero(a) && !IsZero(b)
  {
    QuotientWordFits(f, a, b);
    Normalize(f, a.negative != b.negative, QuotientExp(f, a, b), QuotientWord(f, a, b), rm)
  }

  function QuotientExp(f: Format, a: Float, b: Float): int
    requires Supported(f) && a.mant < Pow2(f.mantBits) && b.mant < Pow2(f.mantBits)
  {
    Normalized(f, a).0 - Normalized(f, b).0 + Pow2(f.expBits - 1) - 1
  }

  /** The quotient of the mantissas, with a nonzero remainder in the sticky bit. */
  function QuotientWord(f: Format, a: Float, b: Float): nat
    requires Supported(f) && a.mant < Pow2(f.mantBits) && b.mant < Pow2(f.mantBits) && !IsZero(b)
  {
    NormalizedBounds(f, b);
    StickyQuotient(ShiftLeft(Normalized(f, a).1, Size(f)), 4 * Normalized(f, b).1)
  }

  function StickyQuotient(n: nat, d: nat): nat
    requires d > 0
  {
    QuotientFacts(n, d);
    SetSticky(n / d, n % d != 0)
  }

  /** The largest integer whose square is at most a. */
  function FloorRoot(a: nat): (r: nat)
    ensures r * r <= a < (r + 1) * (r + 1)
  {
    if a == 0 then 0
    else
      var half := FloorRoot(a / 4);
      RootStep(a, half);
      if (2 * half + 1) * (2 * half + 1) <= a then 2 * half + 1 else 2 * half
  }

  lemma RootStep(a: nat, h: nat)
    requires h * h <= a / 4 < (h + 1) * (h + 1)
    ensures 2 * h * (2 * h) <= a < (2 * h + 1 + 1) * (2 * h + 1 + 1)
  {
    assert 2 * h * (2 * h) == 4 * (h * h);
    assert (2 * h + 2) * (2 * h + 2) == 4 * ((h + 1) * (h + 1));
  }

  function SquareRoot(f: Format, a: Float, rm: Mode): Outcome
    requires Supported(f) && WellFormed(f, a)
  {
    if IsNan(f, a) then Outcome(QuietNan(f), if IsSignalling(f, a) then {InvalidOp} else {})
    else if IsZero(a) then Outcome(a, {})
    else if a.negative then Outcome(QuietNan(f), {InvalidOp})
    else if IsInfinite(f, a) then Outcome(a, {})
    else SquareRootFinite(f, a, rm)
  }

  /** The radicand and half exponent, once the exponent is even. */
  function Radicand(f: Format, a: Float): (int, nat)
    requires Supported(f) && a.mant < Pow2(f.mantBits)
  {
    var (exp, mant) := Normalized(f, a);
    var e := exp - Bias(f);
    if e % 2 == 1 then ((e - 1) / 2 + Bias(f), 2 * mant) else (e / 2 + Bias(f), mant)
  }

  function SquareRootFinite(f: Format, a: Float, rm: Mode): Outcome
    requires Supported(f) && Finite(f, a) && !IsZero(a)
  {
    RootFits(f, a);
    Normalize(f, false, Radicand(f, a).0, StickyRoot(Square(f, a)), rm)
  }

  /** The double word whose root is taken; its low word is zero. */
  function Square(f: Format, a: Float): nat
    requires Supported(f) && a.mant < Pow2(f.mantBits)
  {
    ShiftLeft(ShiftLeft(Radicand(f, a).1, Size(f) - 4 - f.mantBits), Size(f))
  }

  function ShiftLeft(m: nat, s: nat): nat { m * Pow2(s) }

  /** The floor root, odd when it is not exact. */
  function StickyRoot(square: nat): nat {
    var root := FloorRoot(square);
    SetSticky(root, root * root != square)
  }

  function SetSticky(m: nat, lost: bool): nat {
    if lost && m % 2 == 0 then m + 1 else m
  }

  // ------------------------------------------------------------- shifts are sticky

  lemma {:induction false} StickyOfSmall(a: nat, d: nat)
    requires a < Pow2(d)
    ensures Sticky(a, d) == if a != 0 then 1 else 0
    decreases d
  {
    if d > 0 && a > 0 { StickyOfSmallStep(a, d); }
    if d > 0 && a == 0 { StickyOfSmall(0, d - 1); }
  }

  lemma {:induction false} StickyOfSmallStep(a: nat, d: nat)
    requires 0 < a < Pow2(d)
    ensures Sticky(a, d) == 1
    decreases d
  {
    if a == 1 {
      if d > 0 { StickyOfOne(d); }
    } else if d > 1 {
      StickyOfSmallStep(Half(a), d - 1);
    }
  }

  lemma {:induction false} StickyOfOne(d: nat)
    ensures Sticky(1, d) == 1
    decreases d
  {
    if d > 0 { StickyOfOne(d - 1); }
  }

  lemma RshiftIsSticky(f: Format, a: nat, d: nat)
    requires a < Pow2(Size(f))
    ensures RshiftRnd(f, a, d) == Sticky(a, d)
  {
    if d >= Size(f) {
      Pow2Monotone(Size(f), d);
      StickyOfSmall(a, d);
    } else {
      StickyIsDivision(a, d);
    }
  }

  lemma {:induction false} StickyShrinks(m: nat, d: nat)
    ensures Sticky(m, d) <= m
    decreases d
  {
    if d > 0 { StickyShrinks(Half(m), d - 1); }
  }

  lemma HalfBounds(m: nat, lo: nat, hi: nat)
    requires 2 * lo <= m < 2 * hi && hi % 2 == 0
    ensures lo <= Half(m) < hi
  {
  }

  /** A sticky shift keeps powers of two as bounds. */
  lemma {:induction false} StickyBounds(m: nat, d: nat, lo: nat, hi: nat)
    requires lo >= 1 && hi >= 1 && Pow2(lo + d) <= m < Pow2(hi + d)
    ensures Pow2(lo) <= Sticky(m, d) < Pow2(hi)
    decreases d
  {
    if d > 0 {
      HalfBounds(m, Pow2(lo + d - 1), Pow2(hi + d - 1));
      StickyBounds(Half(m), d - 1, lo, hi);
    }
  }

  // ------------------------------------------------------------- nothing overflows

  lemma MagnitudeOrder(f: Format, a: Float, b: Float)
    requires a.mant < Pow2(f.mantBits) && b.mant < Pow2(f.mantBits) && Magnitude(f, b) <= Magnitude(f, a)
    ensures b.exp <= a.exp && (a.exp == b.exp ==> b.mant <= a.mant)
  {
    if b.exp > a.exp { TimesMonotone(a.exp + 1, b.exp, Pow2(f.mantBits)); }
  }

  lemma Pow2Five(k: nat)
    ensures Pow2(k + 1) == 2 * Pow2(k) && Pow2(k + 2) == 4 * Pow2(k) && Pow2(k + 5) == 32 * Pow2(k)
  {
    assert Pow2(k + 2) == 2 * Pow2(k + 1);
    assert Pow2(k + 3) == 2 * Pow2(k + 2);
    assert Pow2(k + 4) == 16 * Pow2(k);
  }

  /** What the shifted operand of an addition leaves. */
  lemma AddFits(f: Format, a: Float, b: Float)
    requires Supported(f) && Finite(f, a) && WellFormed(f, b) && Magnitude(f, b) <= Magnitude(f, a)
    ensures Exponent(b) <= Exponent(a)
    ensures var d := Exponent(a) - Exponent(b);
            var s := RshiftRnd(f, 8 * Significand(f, b), d);
            && s == Sticky(8 * Significand(f, b), d)
            && s <= 8 * Significand(f, a)
            && 8 * Significand(f, a) + s < Pow2(Size(f) - 1)
            && (d >= 2 ==> 8 * Significand(f, a) - s >= Pow2(f.mantBits + 2))
  {
    MagnitudeOrder(f, a, b);
    var d, m := Exponent(a) - Exponent(b), 8 * Significand(f, b);
    Pow2Five(f.mantBits);
    Pow2Monotone(f.mantBits + 5, Size(f) - 1);
    Pow2Monotone(Size(f) - 1, Size(f));
    RshiftIsSticky(f, m, d);
    if d >= 2 {
      assert Half(m) == 4 * Significand(f, b) && Half(Half(m)) == 2 * Significand(f, b);
      assert Sticky(m, d) == Sticky(Half(Half(m)), d - 2);
      StickyShrinks(Half(Half(m)), d - 2);
    } else if d == 1 {
      assert Sticky(m, 1) == Half(m);
    }
  }

  lemma {:induction false} BitLengthBrackets(m: nat)
    requires m > 0
    ensures BitLength(m) > 0 && Pow2(BitLength(m) - 1) <= m < Pow2(BitLength(m))
  {
    if m > 1 { BitLengthBrackets(m / 2); }
  }

  lemma ShiftLeftBounds(m: nat, len: nat, s: nat)
    requires len > 0 && Pow2(len - 1) <= m < Pow2(len)
    ensures Pow2(len - 1 + s) <= m * Pow2(s) < Pow2(len + s)
  {
    ShiftBounds(m, len - 1, len, s);
  }

  lemma NormalizedBounds(f: Format, a: Float)
    requires Supported(f) && a.mant < Pow2(f.mantBits) && !IsZero(a)
    ensures Pow2(f.mantBits) <= Normalized(f, a).1 < Pow2(f.mantBits + 1)
  {
    if a.exp == 0 {
      BitLengthBound(a.mant, f.mantBits);
      BitLengthBrackets(a.mant);
      ShiftLeftBounds(a.mant, BitLength(a.mant), f.mantBits + 1 - BitLength(a.mant));
    }
  }

  lemma ProductBounds(m: nat, a: nat, b: nat)
    requires Pow2(m) <= a < Pow2(m + 1) && Pow2(m) <= b < Pow2(m + 1)
    ensures Pow2(2 * m) <= a * b < Pow2(2 * m + 2)
  {
    Pow2Add(m, m);
    Pow2Add(m + 1, m + 1);
    ProductLe(Pow2(m), a, Pow2(m), b);
    ProductLe(a, Pow2(m + 1) - 1, b, Pow2(m + 1) - 1);
    BelowSquare(Pow2(m + 1));
  }

  lemma ProductLe(a: nat, b: nat, c: nat, d: nat)
    requires a <= b && c <= d
    ensures a * c <= b * d
  {
    TimesMonotone(a, b, c);
    assert b * c <= b * d;
  }

  lemma BelowSquare(k: nat)
    requires k > 0
    ensures (k - 1) * (k - 1) < k * k
  {
  }

  lemma ShiftBounds(c: nat, lo: nat, hi: nat, s: nat)
    requires Pow2(lo) <= c < Pow2(hi)
    ensures Pow2(lo + s) <= c * Pow2(s) < Pow2(hi + s)
  {
    Pow2Add(lo, s);
    Pow2Add(hi, s);
    ProductBetween(c, Pow2(lo), Pow2(hi), Pow2(s));
  }

  lemma ProductBetween(c: nat, lo: nat, hi: nat, k: nat)
    requires lo <= c < hi && k > 0
    ensures lo * k <= c * k < hi * k
  {
    TimesMonotone(lo, c, k);
    TimesMonotone(c + 1, hi, k);
    assert (c + 1) * k == c * k + k;
  }

  lemma Regroup(a: nat, b: nat, c: nat, d: nat)
    ensures a * b * (c * d) == a * c * (b * d)
  {
    assert a * b * (c * d) == a * (b * c) * d == a * (c * b) * d;
  }

  /** The double-word product of two shifted mantissas. */
  lemma ProductShape(f: Format, a: nat, b: nat)
    requires Supported(f)
    requires Pow2(f.mantBits) <= a < Pow2(f.mantBits + 1) && Pow2(f.mantBits) <= b < Pow2(f.mantBits + 1)
    ensures a * Pow2(Rnd(f)) * (b * Pow2(Rnd(f) + 1)) == a * b * Pow2(2 * Rnd(f) + 1)
    ensures Pow2(2 * Size(f) - 3) <= a * b * Pow2(2 * Rnd(f) + 1) < Pow2(2 * Size(f) - 1)
  {
    Pow2Add(Rnd(f), Rnd(f) + 1);
    Regroup(a, Pow2(Rnd(f)), b, Pow2(Rnd(f) + 1));
    ProductBounds(f.mantBits, a, b);
    ShiftBounds(a * b, 2 * f.mantBits, 2 * f.mantBits + 2, 2 * Rnd(f) + 1);
  }

  lemma StickyWord(f: Format, product: nat)
    requires Supported(f) && Pow2(2 * Size(f) - 3) <= product < Pow2(2 * Size(f) - 1)
    ensures var m := StickyHigh(product, Size(f));
            m == Sticky(product, Size(f)) && Pow2(Size(f) - 3) <= m < Pow2(Size(f) - 1)
  {
    QuotientFacts(product, Pow2(Size(f)));
    StickyIsDivision(product, Size(f));
    StickyBounds(product, Size(f), Size(f) - 3, Size(f) - 1);
  }

  lemma ProductFits(f: Format, a: Float, b: Float)
    requires Supported(f) && Finite(f, a) && Finite(f, b) && !IsZero(a) && !IsZero(b)
    ensures DoubleProduct(f, a, b) == ShiftLeft(MantProduct(f, a, b), 2 * Rnd(f) + 1)
    ensures Pow2(2 * Size(f) - 3) <= DoubleProduct(f, a, b) < Pow2(2 * Size(f) - 1)
  {
    NormalizedBounds(f, a);
    NormalizedBounds(f, b);
    ProductShape(f, Normalized(f, a).1, Normalized(f, b).1);
  }

  lemma ProductWordFits(f: Format, a: Float, b: Float)
    requires Supported(f) && Finite(f, a) && Finite(f, b) && !IsZero(a) && !IsZero(b)
    ensures ProductWord(f, a, b) == Sticky(DoubleProduct(f, a, b), Size(f))
    ensures Pow2(Size(f) - 3) <= ProductWord(f, a, b) < Pow2(Size(f) - 1)
  {
    ProductFits(f, a, b);
    StickyWord(f, DoubleProduct(f, a, b));
  }

  lemma QuotientWordFits(f: Format, a: Float, b: Float)
    requires Supported(f) && Finite(f, a) && Finite(f, b) && !IsZero(a) && !IsZero(b)
    ensures Pow2(Size(f) - 3) <= QuotientWord(f, a, b) < Pow2(Size(f) - 1)
  {
    NormalizedBounds(f, a);
    NormalizedBounds(f, b);
    ShiftBounds(Normalized(f, a).1, f.mantBits, f.mantBits + 1, Size(f));
    Pow2Five(f.mantBits);
    Pow2Five(f.mantBits + 1);
    QuotientRange(f.mantBits, Size(f), ShiftLeft(Normalized(f, a).1, Size(f)), 4 * Normalized(f, b).1);
  }

  lemma QuotientRange(m: nat, s: nat, n: nat, d: nat)
    requires s >= 5 && Pow2(m + s) <= n < Pow2(m + 1 + s) && Pow2(m + 2) <= d < Pow2(m + 3)
    ensures Pow2(s - 3) <= StickyQuotient(n, d) < Pow2(s - 1)
  {
    QuotientFacts(n, d);
    QuotientBinade(m, s, n, d, n / d, n % d);
    Pow2Even(s - 1);
    StickyBelow(n / d, n % d != 0, Pow2(s - 1));
  }

  lemma StickyBelow(q: nat, lost: bool, hi: nat)
    requires q < hi && hi % 2 == 0
    ensures q <= SetSticky(q, lost) < hi
  {
  }

  lemma Pow2Even(k: nat)
    requires k > 0
    ensures Pow2(k) % 2 == 0
  {
  }

  lemma QuotientBinade(m: nat, s: nat, n: nat, d: nat, q: nat, r: nat)
    requires s >= 5 && n == d * q + r && r < d
    requires Pow2(m + s) <= n < Pow2(m + 1 + s) && Pow2(m + 2) <= d < Pow2(m + 3)
    ensures Pow2(s - 3) <= q < Pow2(s - 1)
  {
    Pow2Add(s - 3, m + 3);
    Pow2Add(s - 1, m + 2);
    assert (q + 1) * d == d * q + d;
    if q < Pow2(s - 3) { ProductLe(q + 1, Pow2(s - 3), d, Pow2(m + 3)); }
    if q >= Pow2(s - 1) { ProductLe(Pow2(s - 1), q, Pow2(m + 2), d); }
  }

  lemma RadicandBounds(f: Format, a: Float)
    requires Supported(f) && a.mant < Pow2(f.mantBits) && !IsZero(a)
    ensures Pow2(f.mantBits) <= Radicand(f, a).1 < Pow2(f.mantBits + 2)
  {
    NormalizedBounds(f, a);
    Pow2Five(f.mantBits);
  }

  lemma SquareIs(f: Format, a: Float)
    requires Supported(f) && a.mant < Pow2(f.mantBits)
    ensures Square(f, a) == Radicand(f, a).1 * Pow2(2 * Size(f) - 4 - f.mantBits)
  {
    Pow2Add(Size(f) - 4 - f.mantBits, Size(f));
    Reassociate(Radicand(f, a).1, Pow2(Size(f) - 4 - f.mantBits), Pow2(Size(f)));
  }

  lemma RootFits(f: Format, a: Float)
    requires Supported(f) && Finite(f, a) && !IsZero(a)
    ensures Pow2(Size(f) - 2) <= StickyRoot(Square(f, a)) < Pow2(Size(f) - 1)
  {
    RadicandBounds(f, a);
    SquareIs(f, a);
    ShiftBounds(Radicand(f, a).1, f.mantBits, f.mantBits + 2, 2 * Size(f) - 4 - f.mantBits);
    RootRange(Size(f) - 2, Square(f, a));
  }

  lemma Reassociate(a: nat, b: nat, c: nat)
    ensures a * b * c == a * (b * c)
  {
  }

  lemma RootRange(k: nat, square: nat)
    requires k >= 1 && Pow2(2 * k) <= square < Pow2(2 * k + 2)
    ensures Pow2(k) <= StickyRoot(square) < Pow2(k + 1)
  {
    FloorRootRange(k, square);
    Pow2Even(k + 1);
    StickyRootBelow(square, Pow2(k + 1));
  }

  lemma FloorRootRange(k: nat, square: nat)
    requires Pow2(2 * k) <= square < Pow2(2 * k + 2)
    ensures Pow2(k) <= FloorRoot(square) < Pow2(k + 1)
  {
    RootRangeOf(k, square, FloorRoot(square));
  }

  lemma StickyRootBelow(square: nat, hi: nat)
    requires FloorRoot(square) < hi && hi % 2 == 0
    ensures FloorRoot(square) <= StickyRoot(square) < hi
  {
    StickyBelow(FloorRoot(square), FloorRoot(square) * FloorRoot(square) != square, hi);
  }

  lemma RootRangeOf(k: nat, square: nat, r: nat)
    requires Pow2(2 * k) <= square < Pow2(2 * k + 2) && r * r <= square < (r + 1) * (r + 1)
    ensures Pow2(k) <= r < Pow2(k + 1)
  {
    Pow2Add(k, k);
    Pow2Add(k + 1, k + 1);
    if r < Pow2(k) { ProductLe(r + 1, Pow2(k), r + 1, Pow2(k)); }
    if r >= Pow2(k + 1) { ProductLe(Pow2(k + 1), r, Pow2(k + 1), r); }
  }
}
