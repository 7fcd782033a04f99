/**
 The operations of tinyemu-core/softfp_template.h on packed words, their laws over all
 operands, special ones included, and the exact conditions of their invalid flags.
 */
module FloatWords {
  import opened Wrappers
  import opened Arithmetic
  import opened FloatRounding
  import opened SoftFloat
  import opened FloatCorrectness
  import opened FloatOperations
  import opened WordArithmetic

  datatype Op = Plus | Minus | Times | Over

  function Apply(f: Format, op: Op, a: Float, b: Float, rm: Mode): Outcome
    requires Supported(f) && WellFormed(f, a) && WellFormed(f, b)
  {
    match op
    case Plus => Add(f, a, b, rm)
    case Minus => Subtract(f, a, b, rm)
    case Times => Multiply(f, a, b, rm)
    case Over => Divide(f, a, b, rm)
  }

  /** The operation as the machine sees it: words in, a word and flags out. */
  function OnWords(f: Format, op: Op, x: nat, y: nat, rm: Mode): (nat, set<Flag>)
    requires Supported(f) && x < Pow2(Size(f)) && y < Pow2(Size(f))
  {
    PackUnpack(f, x);
    PackUnpack(f, y);
    var r := Apply(f, op, Unpack(f, x), Unpack(f, y), rm);
    (Pack(f, r.float), r.flags)
  }

  // ------------------------------------------------------------- results are encodable

  /** Rounding yields an encodable float and never the invalid or division flags. */
  ghost predicate Rounded(f: Format, r: Outcome) {
    WellFormed(f, r.float) && r.flags <= {Overflow, Underflow, Inexact}
  }

  lemma RoundPackRounds(f: Format, negative: bool, exp: int, mant: nat, rm: Mode)
    requires Supported(f)
    ensures Rounded(f, RoundPack(f, negative, exp, mant, rm))
  {
    var m := if exp <= 0 then RshiftRnd(f, mant, 1 - exp) else mant;
    var n := RoundMant(m, Rnd(f), rm, negative);
    QuotientFacts(n, Pow2(f.mantBits + 1));
    QuotientFacts(n, Pow2(f.mantBits));
    Pow2Monotone(1, f.expBits);
  }

  lemma NormalizeRounds(f: Format, negative: bool, exp: int, mant: nat, rm: Mode)
    requires Supported(f) && mant < Pow2(Size(f) - 1)
    ensures Rounded(f, Normalize(f, negative, exp, mant, rm))
  {
    BitLengthBound(mant, Size(f) - 1);
    var shift := Clz(f, mant) - 1;
    RoundPackRounds(f, negative, exp - shift, mant * Pow2(shift), rm);
  }

  lemma AddOrderedRounds(f: Format, a: Float, b: Float, rm: Mode)
    requires Supported(f) && Finite(f, a) && Finite(f, b) && Magnitude(f, b) <= Magnitude(f, a)
    ensures Rounded(f, AddOrdered(f, a, b, rm))
  {
    AddOrderedIsWord(f, a, b, rm);
    NormalizeRounds(f, if a.negative != b.negative && SumWord(f, a, b) == 0 then rm == RDN else a.negative,
                    Exponent(a) + Rnd(f) - 3, SumWord(f, a, b), rm);
  }

  lemma AddRounds(f: Format, a: Float, b: Float, rm: Mode)
    requires Supported(f) && Finite(f, a) && Finite(f, b)
    ensures Rounded(f, Add(f, a, b, rm))
  {
    if Magnitude(f, a) < Magnitude(f, b) { AddOrderedRounds(f, b, a, rm); } else { AddOrderedRounds(f, a, b, rm); }
  }

  lemma MultiplyRounds(f: Format, a: Float, b: Float, rm: Mode)
    requires Supported(f) && Finite(f, a) && Finite(f, b) && !IsZero(a) && !IsZero(b)
    ensures Rounded(f, MultiplyFinite(f, a, b, rm))
  {
    ProductWordFits(f, a, b);
    NormalizeRounds(f, a.negative != b.negative, ProductExp(f, a, b), ProductWord(f, a, b), rm);
  }

  lemma DivideRounds(f: Format, a: Float, b: Float, rm: Mode)
    requires Supported(f) && Finite(f, a) && Finite(f, b) && !IsZero(a) && !IsZero(b)
    ensures Rounded(f, DivideFinite(f, a, b, rm))
  {
    QuotientWordFits(f, a, b);
    NormalizeRounds(f, a.negative != b.negative, QuotientExp(f, a, b), QuotientWord(f, a, b), rm);
  }

  lemma RootRounds(f: Format, a: Float, rm: Mode)
    requires Supported(f) && Finite(f, a) && !IsZero(a)
    ensures Rounded(f, SquareRootFinite(f, a, rm))
  {
    RootFits(f, a);
    NormalizeRounds(f, false, Radicand(f, a).0, StickyRoot(Square(f, a)), rm);
  }

  lemma SpecialsFit(f: Format)
    requires Supported(f)
    ensures ExpMask(f) > 0 && WellFormed(f, QuietNan(f))
    ensures forall negative :: WellFormed(f, Float(negative, 0, 0)) && WellFormed(f, Float(negative, ExpMask(f), 0))
  {
    Pow2Monotone(1, f.expBits);
    assert Pow2(f.mantBits) == 2 * Pow2(f.mantBits - 1);
  }

  // ----------------------------------------------------------------- the invalid flags

  /** The operands have no meaningful result although neither is a NaN. */
  predicate Meaningless(f: Format, op: Op, a: Float, b: Float) {
    match op
    case Plus => IsInfinite(f, a) && IsInfinite(f, b) && a.negative != b.negative
    case Minus => IsInfinite(f, a) && IsInfinite(f, b) && a.negative == b.negative
    case Times => (IsZero(a) && IsInfinite(f, b)) || (IsInfinite(f, a) && IsZero(b))
    case Over => (IsZero(a) && IsZero(b)) || (IsInfinite(f, a) && IsInfinite(f, b))
  }

  /** What the flags of an operation must say about its operands. */
  ghost predicate FlagsExact(f: Format, op: Op, a: Float, b: Float, r: Outcome)
    requires Supported(f)
  {
    && WellFormed(f, r.float)
    && (InvalidOp in r.flags <==> IsSignalling(f, a) || IsSignalling(f, b) || Meaningless(f, op, a, b))
    && (DivideZero in r.flags <==> op.Over? && IsZero(b) && Finite(f, a) && !IsZero(a))
  }

  lemma PlusFlags(f: Format, a: Float, b: Float, rm: Mode)
    requires Supported(f) && WellFormed(f, a) && WellFormed(f, b)
    ensures FlagsExact(f, Plus, a, b, Add(f, a, b, rm))
  {
    SpecialsFit(f);
    if Finite(f, a) && Finite(f, b) { AddRounds(f, a, b, rm); } else { AddOnSpecials(f, a, b, rm); }
  }

  lemma TimesFlags(f: Format, a: Float, b: Float, rm: Mode)
    requires Supported(f) && WellFormed(f, a) && WellFormed(f, b)
    ensures FlagsExact(f, Times, a, b, Multiply(f, a, b, rm))
  {
    SpecialsFit(f);
    if Finite(f, a) && Finite(f, b) && !IsZero(a) && !IsZero(b) { MultiplyRounds(f, a, b, rm); }
  }

  lemma OverFlags(f: Format, a: Float, b: Float, rm: Mode)
    requires Supported(f) && WellFormed(f, a) && WellFormed(f, b)
    ensures FlagsExact(f, Over, a, b, Divide(f, a, b, rm))
  {
    SpecialsFit(f);
    if Finite(f, a) && Finite(f, b) && !IsZero(a) && !IsZero(b) { DivideRounds(f, a, b, rm); }
  }

  /** Over all operands: invalid exactly for a signalling NaN or a meaningless pair, and x/0 alone divides by zero. */
  lemma InvalidExactly(f: Format, op: Op, a: Float, b: Float, rm: Mode)
    requires Supported(f) && WellFormed(f, a) && WellFormed(f, b)
    ensures FlagsExact(f, op, a, b, Apply(f, op, a, b, rm))
  {
    match op
    case Plus => PlusFlags(f, a, b, rm);
    case Minus => PlusFlags(f, a, b.(negative := !b.negative), rm);
    case Times => TimesFlags(f, a, b, rm);
    case Over => OverFlags(f, a, b, rm);
  }

  /** A root is invalid exactly for a signalling NaN or a negative number other than zero. */
  lemma RootInvalidExactly(f: Format, a: Float, rm: Mode)
    requires Supported(f) && WellFormed(f, a)
    ensures var r := SquareRoot(f, a, rm);
            && WellFormed(f, r.float)
            && (InvalidOp in r.flags <==> IsSignalling(f, a) || (!IsNan(f, a) && a.negative && !IsZero(a)))
  {
    SpecialsFit(f);
    if Finite(f, a) && !IsZero(a) && !a.negative { RootRounds(f, a, rm); }
  }

  // ------------------------------------------------------------------------ the laws

  lemma SameMagnitude(f: Format, a: Float, b: Float)
    requires WellFormed(f, a) && WellFormed(f, b) && Magnitude(f, a) == Magnitude(f, b)
    ensures a.exp == b.exp && a.mant == b.mant
  {
    MagnitudeOrder(f, a, b);
    MagnitudeOrder(f, b, a);
  }

  /** Addition commutes on all operands although the code orders them by magnitude. */
  lemma AddCommutes(f: Format, a: Float, b: Float, rm: Mode)
    requires Supported(f) && WellFormed(f, a) && WellFormed(f, b)
    ensures Add(f, a, b, rm) == Add(f, b, a, rm)
  {
    if Finite(f, a) && Finite(f, b) {
      if Magnitude(f, a) == Magnitude(f, b) {
        SameMagnitude(f, a, b);
        AddFits(f, a, b);
        if a.negative != b.negative { EqualCancels(f, a, b, rm); }
      }
    } else {
      AddOnSpecials(f, a, b, rm);
      AddOnSpecials(f, b, a, rm);
    }
  }

  /** Opposite numbers of one magnitude cancel to the same zero in either order. */
  lemma EqualCancels(f: Format, a: Float, b: Float, rm: Mode)
    requires Supported(f) && Finite(f, a) && b == a.(negative := !a.negative)
    ensures AddOrdered(f, a, b, rm) == AddOrdered(f, b, a, rm)
  {
    AddFits(f, a, b);
    AddFits(f, b, a);
  }

  lemma SwapFactors(x: nat, y: nat, p: nat)
    ensures ProductOf(ProductOf(x, p), ProductOf(y, 2 * p)) == ProductOf(ProductOf(y, p), ProductOf(x, 2 * p))
  {
    Regroup(x, p, y, 2 * p);
    Regroup(y, p, x, 2 * p);
  }

  lemma DoubleProductCommutes(f: Format, a: Float, b: Float)
    requires Supported(f) && Finite(f, a) && Finite(f, b)
    ensures DoubleProduct(f, a, b) == DoubleProduct(f, b, a)
  {
    SwapFactors(Normalized(f, a).1, Normalized(f, b).1, Pow2(Rnd(f)));
    assert Pow2(Rnd(f) + 1) == 2 * Pow2(Rnd(f));
  }

  /** Multiplication commutes on all operands although the code shifts them by different amounts. */
  lemma MultiplyCommutes(f: Format, a: Float, b: Float, rm: Mode)
    requires Supported(f) && WellFormed(f, a) && WellFormed(f, b)
    ensures Multiply(f, a, b, rm) == Multiply(f, b, a, rm)
  {
    if Finite(f, a) && Finite(f, b) && !IsZero(a) && !IsZero(b) { DoubleProductCommutes(f, a, b); }
  }

  /** Every operation turns a NaN operand, on either side, into the one quiet NaN with the same flags. */
  lemma NansPropagateAlike(f: Format, op: Op, a: Float, b: Float, rm: Mode)
    requires Supported(f) && WellFormed(f, a) && WellFormed(f, b) && IsNan(f, a)
    ensures Apply(f, op, a, b, rm) == NanOutcome(f, IsSignalling(f, a) || IsSignalling(f, b))
    ensures Apply(f, op, b, a, rm) == Apply(f, op, a, b, rm)
  {
    if op.Plus? {
      AddOnSpecials(f, a, b, rm);
      AddOnSpecials(f, b, a, rm);
    } else if op.Minus? {
      AddOnSpecials(f, a, b.(negative := !b.negative), rm);
      AddOnSpecials(f, b, a.(negative := !a.negative), rm);
    }
  }

  /** Multiplying back undoes the division of an infinity or a zero, sign included and without flags. */
  lemma MultiplyUndoesDivide(f: Format, a: Float, b: Float, rm: Mode)
    requires Supported(f) && WellFormed(f, a) && (IsInfinite(f, a) || IsZero(a)) && Finite(f, b) && !IsZero(b)
    ensures var q := Divide(f, a, b, rm);
            && q.flags == {} && WellFormed(f, q.float)
            && Multiply(f, q.float, b, rm) == Outcome(a, {})
  {
    SpecialsFit(f);
  }

  /** The root of the square of an infinity or a zero is its absolute value. */
  lemma RootOfSquare(f: Format, a: Float, rm: Mode)
    requires Supported(f) && WellFormed(f, a) && (IsInfinite(f, a) || IsZero(a))
    ensures var square := Multiply(f, a, a, rm);
            && WellFormed(f, square.float)
            && SquareRoot(f, square.float, rm) == Outcome(a.(negative := false), {})
  {
    SpecialsFit(f);
  }

  // --------------------------------------------------------------- correctness on words

  /** The result word unpacks to the outcome of the operation on the unpacked operands. */
  lemma WordsCarryOutcomes(f: Format, op: Op, x: nat, y: nat, rm: Mode)
    requires Supported(f) && x < Pow2(Size(f)) && y < Pow2(Size(f))
    ensures WellFormed(f, Unpack(f, x)) && WellFormed(f, Unpack(f, y))
    ensures var (w, flags) := OnWords(f, op, x, y, rm);
            w < Pow2(Size(f)) && Outcome(Unpack(f, w), flags) == Apply(f, op, Unpack(f, x), Unpack(f, y), rm)
  {
    PackUnpack(f, x);
    PackUnpack(f, y);
    InvalidExactly(f, op, Unpack(f, x), Unpack(f, y), rm);
    UnpackPack(f, Apply(f, op, Unpack(f, x), Unpack(f, y), rm).float);
  }

  /** The magnitude of the exact result. */
  ghost function ExactSize(f: Format, op: Op, a: Float, b: Float): real
    requires Supported(f) && (op.Over? ==> Value(f, b) > 0.0)
  {
    match op
    case Plus => Magn(Signed(f, a) + Signed(f, b))
    case Minus => Magn(Signed(f, a) - Signed(f, b))
    case Times => Value(f, a) * Value(f, b)
    case Over => Value(f, a) / Value(f, b)
  }

  /** The sign of the exact result, zero results included. */
  ghost function ExactSign(f: Format, op: Op, a: Float, b: Float, rm: Mode): bool
    requires Supported(f)
  {
    match op
    case Plus => SumSign(f, a, b, rm)
    case Minus =>
      var d := Signed(f, a) - Signed(f, b);
      if d != 0.0 then d < 0.0 else if a.negative != b.negative then a.negative else rm == RDN
    case _ => a.negative != b.negative
  }

  /** Correct rounding as one fact. */
  ghost function Judge(f: Format, x: real, rm: Mode, negative: bool, out: Outcome): Verdict
    requires Supported(f)
  {
    if Correct(f, x, rm, negative, out) then Sound else Unsound
  }

  lemma PlusIsCorrect(f: Format, a: Float, b: Float, rm: Mode)
    requires Supported(f) && Finite(f, a) && Finite(f, b)
    ensures Judge(f, Magn(Signed(f, a) + Signed(f, b)), rm, SumSign(f, a, b, rm), Add(f, a, b, rm)).Sound?
  {
    AddIsCorrect(f, a, b, rm);
  }

  lemma MinusIsCorrect(f: Format, a: Float, b: Float, rm: Mode)
    requires Supported(f) && Finite(f, a) && Finite(f, b)
    ensures Judge(f, Magn(Signed(f, a) - Signed(f, b)), rm, ExactSign(f, Minus, a, b, rm), Subtract(f, a, b, rm)).Sound?
  {
    SubtractIsCorrect(f, a, b, rm);
  }

  lemma ProductHolds(x: real, u: real, v: real)
    requires x == u * v
    ensures Product(x, u, v).Sound?
  {
  }

  lemma TimesIsCorrect(f: Format, a: Float, b: Float, rm: Mode, x: real)
    requires Supported(f) && Finite(f, a) && Finite(f, b) && Product(x, Value(f, a), Value(f, b)).Sound?
    ensures Judge(f, x, rm, a.negative != b.negative, Multiply(f, a, b, rm)).Sound?
  {
    MultiplyAt(f, a, b, rm, x);
  }

  lemma OverIsCorrect(f: Format, a: Float, b: Float, rm: Mode, x: real)
    requires Supported(f) && Finite(f, a) && Finite(f, b) && !IsZero(b)
    requires Value(f, b) > 0.0 && x == ExactSize(f, Over, a, b)
    ensures Judge(f, x, rm, a.negative != b.negative, Divide(f, a, b, rm)).Sound?
  {
    DivideIsCorrect(f, a, b, rm);
  }

  lemma ApplyIsCorrect(f: Format, op: Op, a: Float, b: Float, rm: Mode)
    requires Supported(f) && Finite(f, a) && Finite(f, b) && (op.Over? ==> !IsZero(b) && Value(f, b) > 0.0)
    ensures Judge(f, ExactSize(f, op, a, b), rm, ExactSign(f, op, a, b, rm), Apply(f, op, a, b, rm)).Sound?
  {
    match op
    case Plus => PlusIsCorrect(f, a, b, rm);
    case Minus => MinusIsCorrect(f, a, b, rm);
    case Times =>
      ProductHolds(ExactSize(f, Times, a, b), Value(f, a), Value(f, b));
      TimesIsCorrect(f, a, b, rm, ExactSize(f, Times, a, b));
    case Over => OverIsCorrect(f, a, b, rm, ExactSize(f, Over, a, b));
  }

  /** On words: all four operations round the exact result correctly, in every mode, with the right flags. */
  lemma WordsAreCorrect(f: Format, op: Op, x: nat, y: nat, a: Float, b: Float, rm: Mode)
    requires Supported(f) && x < Pow2(Size(f)) && y < Pow2(Size(f)) && a == Unpack(f, x) && b == Unpack(f, y)
    requires Finite(f, a) && Finite(f, b) && (op.Over? ==> !IsZero(b))
    ensures op.Over? ==> Value(f, b) > 0.0
    ensures var (w, flags) := OnWords(f, op, x, y, rm);
            Correct(f, ExactSize(f, op, a, b), rm, ExactSign(f, op, a, b, rm), Outcome(Unpack(f, w), flags))
  {
    if op.Over? { PositiveValue(f, b); }
    WordsCarryOutcomes(f, op, x, y, rm);
    ApplyIsCorrect(f, op, a, b, rm);
  }
}
