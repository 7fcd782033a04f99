/**
 Rounding as section 4.3 of IEEE 754-2008 defines it, on real magnitudes, and the
 sticky-bit relation that lets integer code compute it.
 */
module FloatRounding {
  import opened Arithmetic

  /** Rounding modes in the order of the RISC-V frm field. */
  datatype Mode = RNE | RTZ | RDN | RUP | RMM

  function Pow2(n: nat): (r: nat)
    ensures r > 0
  {
    if n == 0 then 1 else 2 * Pow2(n - 1)
  }

  lemma {:induction false} Pow2Add(a: nat, b: nat)
    ensures Pow2(a + b) == Pow2(a) * Pow2(b)
  {
    if a > 0 { Pow2Add(a - 1, b); }
  }

  lemma {:induction false} Pow2Monotone(a: nat, b: nat)
    requires a <= b
    ensures Pow2(a) <= Pow2(b)
    decreases b - a
  {
    if a < b { Pow2Monotone(a, b - 1); }
  }

  // ---------------------------------------------------- scaling by powers of two

  /** x times 2^e. */
  ghost function Scale(x: real, e: int): real
    decreases if e < 0 then -e else e
  {
    if e == 0 then x else if e > 0 then 2.0 * Scale(x, e - 1) else Scale(x, e + 1) / 2.0
  }

  lemma ScaleSucc(x: real, e: int)
    ensures Scale(x, e + 1) == 2.0 * Scale(x, e)
  {
  }

  lemma {:induction false} ScaleAdd(x: real, a: int, b: int)
    ensures Scale(Scale(x, a), b) == Scale(x, a + b)
    decreases if b < 0 then -b else b
  {
    if b > 0 {
      ScaleAdd(x, a, b - 1);
      ScaleSucc(x, a + b - 1);
    } else if b < 0 {
      ScaleAdd(x, a, b + 1);
      ScaleSucc(x, a + b);
    }
  }

  lemma {:induction false} ScaleLess(x: real, y: real, e: int)
    ensures Scale(x, e) < Scale(y, e) <==> x < y
    ensures Scale(x, e) <= Scale(y, e) <==> x <= y
    decreases if e < 0 then -e else e
  {
    if e > 0 { ScaleLess(x, y, e - 1); } else if e < 0 { ScaleLess(x, y, e + 1); }
  }

  lemma {:induction false} ScaleSum(x: real, y: real, e: int)
    ensures Scale(x + y, e) == Scale(x, e) + Scale(y, e)
    ensures Scale(x - y, e) == Scale(x, e) - Scale(y, e)
    ensures Scale(0.0, e) == 0.0
    decreases if e < 0 then -e else e
  {
    if e > 0 { ScaleSum(x, y, e - 1); } else if e < 0 { ScaleSum(x, y, e + 1); }
  }

  lemma {:induction false} ScaleNat(m: int, s: nat)
    ensures Scale(m as real, s) == (m * Pow2(s)) as real
  {
    if s > 0 {
      ScaleNat(m, s - 1);
      assert m * Pow2(s) == 2 * (m * Pow2(s - 1));
    }
  }

  lemma {:induction false} ScaleMonotone(a: int, b: int)
    requires a <= b
    ensures Scale(1.0, a) <= Scale(1.0, b) && Scale(1.0, a) > 0.0
    decreases b - a
  {
    if a < b {
      ScaleMonotone(a, b - 1);
      ScaleSucc(1.0, b - 1);
    } else {
      ScaleLess(0.0, 1.0, a);
      ScaleSum(0.0, 0.0, a);
    }
  }

  /** The power of two itself. */
  lemma ScaleOne(n: nat, e: int)
    ensures Scale(Pow2(n) as real, e) == Scale(1.0, n + e)
  {
    ScaleNat(1, n);
    ScaleAdd(1.0, n, e);
  }

  lemma ScaleInverse(x: real, e: int)
    ensures Scale(Scale(x, e), -e) == x && Scale(Scale(x, -e), e) == x
  {
    ScaleAdd(x, e, -e);
    ScaleAdd(x, -e, e);
  }

  // ------------------------------------------------------------------- rounding

  /** The integer a magnitude z >= 0 of the given sign rounds to. */
  ghost function ToInteger(z: real, rm: Mode, negative: bool): int {
    var n := z.Floor;
    var frac := z - n as real;
    match rm
    case RTZ => n
    case RDN => if negative && frac > 0.0 then n + 1 else n
    case RUP => if !negative && frac > 0.0 then n + 1 else n
    case RNE => if frac < 0.5 || (frac == 0.5 && n % 2 == 0) then n else n + 1
    case RMM => if frac < 0.5 then n else n + 1
  }

  /** A precision of p bits and a least quantum 2^least. */
  datatype Grid = Grid(p: nat, least: int)

  /** Representable values are spaced 2^q apart at x. */
  ghost predicate IsQuantum(g: Grid, x: real, q: int) {
    q >= g.least && x < Scale(1.0, q + g.p) && (q == g.least || Scale(1.0, q + g.p - 1) <= x)
  }

  ghost predicate IsRounding(x: real, rm: Mode, negative: bool, q: int, y: real) {
    y == Scale(ToInteger(Scale(x, -q), rm, negative) as real, q)
  }

  /** x rounded to the grid, with no upper bound on the exponent. */
  ghost predicate RoundsTo(g: Grid, x: real, rm: Mode, negative: bool, y: real) {
    exists q: int :: IsQuantum(g, x, q) && IsRounding(x, rm, negative, q, y)
  }

  lemma QuantumUnique(g: Grid, x: real, q: int, q': int)
    requires IsQuantum(g, x, q) && IsQuantum(g, x, q')
    ensures q == q'
  {
    if q < q' { ScaleMonotone(q + g.p, q' + g.p - 1); }
    if q' < q { ScaleMonotone(q' + g.p, q + g.p - 1); }
  }

  /** The rounding is unique. */
  lemma RoundingUnique(g: Grid, x: real, rm: Mode, negative: bool, y: real, y': real)
    requires RoundsTo(g, x, rm, negative, y) && RoundsTo(g, x, rm, negative, y')
    ensures y == y'
  {
    var q :| IsQuantum(g, x, q) && IsRounding(x, rm, negative, q, y);
    var q' :| IsQuantum(g, x, q') && IsRounding(x, rm, negative, q', y');
    QuantumUnique(g, x, q, q');
  }

  // ---------------------------------------------- what the rounding means

  /** A value of the grid: at most p significant bits. */
  ghost predicate Representable(g: Grid, w: real) {
    exists m: nat, k: int :: IsGridPoint(g, w, m, k)
  }

  ghost predicate IsGridPoint(g: Grid, w: real, m: nat, k: int) {
    m < Pow2(g.p) && k >= g.least && w == Scale(m as real, k)
  }

  /** n quanta are at most x, and n + 1 are more. */
  ghost predicate Brackets(x: real, q: int, n: int) {
    Scale(n as real, q) <= x < Scale(n as real + 1.0, q)
  }

  lemma FloorBrackets(x: real, q: int)
    requires x >= 0.0
    ensures Scale(x, -q).Floor >= 0 && Brackets(x, q, Scale(x, -q).Floor)
  {
    var z := Scale(x, -q);
    ScaleLess(0.0, x, -q);
    ScaleSum(0.0, 0.0, -q);
    ScaleInverse(x, q);
    ScaleLess(z.Floor as real, z, q);
    ScaleLess(z, z.Floor as real + 1.0, q);
  }

  /** Above the first binade, x is at least 2^(p - 1) quanta. */
  lemma FloorIsLong(g: Grid, x: real, q: int, n: int)
    requires IsQuantum(g, x, q) && Brackets(x, q, n) && g.p > 0 && q > g.least
    ensures Pow2(g.p - 1) <= n
  {
    ScaleOne(g.p - 1, q);
    ScaleLess(Pow2(g.p - 1) as real, n as real + 1.0, q);
  }

  /** Grid points never fall strictly between neighbouring multiples of the quantum. */
  lemma NoneBetween(g: Grid, x: real, q: int, w: real, n: nat)
    requires IsQuantum(g, x, q) && Representable(g, w) && g.p > 0 && Brackets(x, q, n)
    ensures w <= Scale(n as real, q) || w >= Scale(n as real + 1.0, q)
  {
    var m: nat, k: int :| IsGridPoint(g, w, m, k);
    if k >= q {
      CoarseIsMultiple(m, k, q, n);
    } else {
      FloorIsLong(g, x, q, n);
      FineIsSmall(g.p, m, k, q, n);
    }
  }

  lemma CoarseIsMultiple(m: nat, k: int, q: int, n: nat)
    requires k >= q
    ensures Scale(m as real, k) <= Scale(n as real, q) || Scale(m as real, k) >= Scale(n as real + 1.0, q)
  {
    ScaleNat(m, k - q);
    ScaleAdd(m as real, k - q, q);
    IntegersApart(m * Pow2(k - q), n, q);
  }

  lemma IntegersApart(c: int, n: int, q: int)
    ensures Scale(c as real, q) <= Scale(n as real, q) || Scale(c as real, q) >= Scale(n as real + 1.0, q)
  {
    if c <= n {
      ScaleLess(c as real, n as real, q);
    } else {
      assert n as real + 1.0 <= c as real;
      ScaleLess(n as real + 1.0, c as real, q);
    }
  }

  lemma FineIsSmall(p: nat, m: nat, k: int, q: int, n: nat)
    requires p > 0 && m < Pow2(p) && k < q && Pow2(p - 1) <= n
    ensures Scale(m as real, k) <= Scale(n as real, q)
  {
    ScaleLess(m as real, Pow2(p) as real, k);
    ScaleOne(p, k);
    ScaleMonotone(p + k, p - 1 + q);
    ScaleOne(p - 1, q);
    ScaleLess(Pow2(p - 1) as real, n as real, q);
  }

  function Distance(u: real, x: real): real {
    if u <= x then x - u else u - x
  }

  /** Whether the mode truncates magnitudes of this sign. */
  predicate Truncates(rm: Mode, negative: bool) {
    rm == RTZ || (rm == RDN && !negative) || (rm == RUP && negative)
  }

  /** Where x lies between its neighbours, as a fraction of the quantum. */
  lemma FractionScales(x: real, q: int, n: nat)
    requires n == Scale(x, -q).Floor && Brackets(x, q, n)
    ensures var frac, lo, hi := Scale(x, -q) - n as real, Scale(n as real, q), Scale(n as real + 1.0, q);
            && (frac > 0.0 <==> x > lo)
            && (frac < 0.5 <==> Distance(lo, x) < Distance(hi, x))
            && (frac == 0.5 <==> Distance(lo, x) == Distance(hi, x))
  {
    var z, r := Scale(x, -q), n as real;
    ScaleInverse(x, q);
    ScaleLess(r, z, q);
    ScaleSum(r, 1.0, q);
    ScaleSum(r, 0.5, q);
    ScaleSum(0.5, 0.5, q);
    ScaleLess(z, r + 0.5, q);
    ScaleLess(r + 0.5, z, q);
  }

  /** The rounding is one of the two neighbours, chosen by the mode. */
  lemma RoundingIsNeighbour(x: real, rm: Mode, negative: bool, q: int, y: real, n: nat)
    requires x >= 0.0 && IsRounding(x, rm, negative, q, y) && n == Scale(x, -q).Floor
    ensures Brackets(x, q, n)
    ensures var lo, hi := Scale(n as real, q), Scale(n as real + 1.0, q);
            && (y == lo || (y == hi && x > lo))
            && (Truncates(rm, negative) ==> y == lo)
            && ((rm == RDN && negative) || (rm == RUP && !negative) ==> x <= y)
            && (rm == RNE || rm == RMM ==> Distance(y, x) <= Distance(lo, x) && Distance(y, x) <= Distance(hi, x))
            && (rm == RMM && Distance(lo, x) == Distance(hi, x) ==> y == hi)
            && (rm == RNE && Distance(lo, x) == Distance(hi, x) ==> y == if n % 2 == 0 then lo else hi)
  {
    FloorBrackets(x, q);
    FractionScales(x, q, n);
  }

  /** The rounding is the one the standard asks for among all values of the grid. */
  lemma RoundingIsOptimal(g: Grid, x: real, rm: Mode, negative: bool, y: real, w: real)
    requires g.p > 0 && x >= 0.0 && RoundsTo(g, x, rm, negative, y) && Representable(g, w)
    ensures Truncates(rm, negative) ==> y <= x && (w <= x ==> w <= y)
    ensures (rm == RDN && negative) || (rm == RUP && !negative) ==> x <= y && (x <= w ==> y <= w)
    ensures rm == RNE || rm == RMM ==> Distance(y, x) <= Distance(w, x)
    ensures rm == RMM && Distance(y, x) == Distance(w, x) ==> w <= y
  {
    var q :| IsQuantum(g, x, q) && IsRounding(x, rm, negative, q, y);
    FloorBrackets(x, q);
    RoundingIsNeighbour(x, rm, negative, q, y, Scale(x, -q).Floor);
    NoneBetween(g, x, q, w, Scale(x, -q).Floor);
  }

  // ---------------------------------------------------------------- sticky bits

  /** m stands for y: exact when even, and within one of y when odd. */
  ghost predicate Jams(m: nat, y: real) {
    if m % 2 == 0 then y == m as real else (m - 1) as real < y < (m + 1) as real
  }

  /** One bit shifted out into the sticky bit. */
  function Half(m: nat): nat {
    if m % 2 == 1 && m / 2 % 2 == 0 then m / 2 + 1 else m / 2
  }

  function Sticky(m: nat, d: nat): nat
    decreases d
  {
    if d == 0 then m else Sticky(Half(m), d - 1)
  }

  lemma HalfJams(m: nat, y: real)
    requires Jams(m, y)
    ensures Jams(Half(m), y / 2.0)
  {
  }

  /** A sticky shift loses nothing that the relation can see. */
  lemma {:induction false} StickyJams(m: nat, y: real, d: nat)
    requires Jams(m, y)
    ensures Jams(Sticky(m, d), Scale(y, -(d as int)))
    decreases d
  {
    if d > 0 {
      HalfJams(m, y);
      StickyJams(Half(m), y / 2.0, d - 1);
      ScaleAdd(y, -1, 1 - d);
    }
  }

  lemma {:induction false} StickyCompose(m: nat, a: nat, b: nat)
    ensures Sticky(Sticky(m, a), b) == Sticky(m, a + b)
    decreases a
  {
    if a > 0 { StickyCompose(Half(m), a - 1, b); }
  }

  lemma DoubleMoves(m: nat, p: nat)
    ensures m * (2 * p) == 2 * (m * p)
  {
  }

  lemma StickyOfDouble(x: nat, d: nat)
    requires d > 0
    ensures Sticky(2 * x, d) == Sticky(x, d - 1)
  {
    assert Half(2 * x) == x;
  }

  /** Shifting left and then right again. */
  lemma {:induction false} StickyUnshift(m: nat, s: nat, d: nat)
    requires s <= d
    ensures Sticky(m * Pow2(s), d) == Sticky(m, d - s)
    decreases s
  {
    if s > 0 {
      DoubleMoves(m, Pow2(s - 1));
      StickyOfDouble(m * Pow2(s - 1), d);
      StickyUnshift(m, s - 1, d - 1);
    }
  }

  lemma {:induction false} StickyOfMultiple(m: nat, d: nat)
    ensures Sticky(m * Pow2(d), d) == m
    decreases d
  {
    StickyUnshift(m, d, d);
  }

  /** The closed form the code computes. */
  lemma {:induction false} StickyIsDivision(m: nat, d: nat)
    ensures Sticky(m, d) == if m % Pow2(d) != 0 && m / Pow2(d) % 2 == 0 then m / Pow2(d) + 1 else m / Pow2(d)
    decreases d
  {
    if d > 0 {
      StickyIsDivision(Half(m), d - 1);
      if d > 1 { HalfDivides(m, Pow2(d - 1)); }
    }
  }

  lemma HalfDivides(m: nat, k: nat)
    requires k > 1 && k % 2 == 0
    ensures Half(m) / k == m / (2 * k)
    ensures Half(m) % k == Half(m % (2 * k))
  {
    QuotientFacts(m, 2 * k);
    HalfOfDivision(m, k, m / (2 * k), m % (2 * k));
    DivModUnique(Half(m), k, m / (2 * k), Half(m % (2 * k)));
  }

  lemma HalfOfDivision(m: nat, k: nat, n: nat, r: nat)
    requires k % 2 == 0 && m == 2 * k * n + r && r < 2 * k
    ensures Half(m) == k * n + Half(r) && Half(r) < k
  {
    FourTimes(k / 2, k, n);
    HalfOfSum(k / 2 * n, r);
  }

  lemma FourTimes(j: nat, k: nat, n: nat)
    requires k == 2 * j
    ensures 2 * k * n == 4 * (j * n) && k * n == 2 * (j * n)
  {
  }

  lemma HalfOfSum(c: nat, r: nat)
    ensures Half(4 * c + r) == 2 * c + Half(r)
  {
  }
}
