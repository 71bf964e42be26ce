/** math/mod.go: the floating-point remainder by exact subtractions, with the
    Frexp, Ldexp and normalize it uses. */
module Mod {
  import opened Bits
  import opened Rounding
  import opened Float64
  import opened WidePair

  /** `Abs` clears the sign bit. */
  function AbsBits(b: Pattern): Pattern { Magnitude(b) }

  /** A finite magnitude as a multiple of the smallest subnormal, 2^-1074. */
  function Units(b: Pattern): nat {
    ShiftUp(Mant(b), Exp(b) + 1074)
  }

  /** What the hardware returns for n * 2^-1074: the nearest float64, ties to even. */
  function RoundUnits(n: nat): Pattern {
    if n < 2 * FRAC then n
    else
      BitLenAtLeast(n, 53);
      var k := BitLen(n) - 53;
      var m := NearestEven(n, k);
      if Encode(m, k - 1074) >= INF then INF else Encode(m, k - 1074)
  }

  // ----- the code, on non-negative operands

  /** `normalize`: multiplication by 2^52 is exact. */
  function Normalize(x: Pattern): (Pattern, int) {
    if ExpField(x) == 0 then (RoundUnits(ShiftUp(Units(x), 52)), -52) else (x, 0)
  }

  /** `frexp` */
  function Frexp(f: Pattern): (Pattern, int) {
    if IsZero(f) then (f, 0)
    else if IsInf(f) || IsNaN(f) then (f, 0)
    else
      var (y, e) := Normalize(f);
      var exp := e + And(Shr(y, 52), 0x7FF) - BIAS + 1;
      (WithExponent(y, BIAS - 1), exp)
  }

  /** `x &^= mask << shift; x |= e << shift` */
  function WithExponent(x: Pattern, e: nat): Pattern {
    Or(AndNot(x, Shl(0x7FF, 52)), Shl(e, 52)) % WORD
  }

  /** `ldexp` */
  function Ldexp(frac: Pattern, exp: int): Pattern {
    if IsZero(frac) then frac
    else if IsInf(frac) || IsNaN(frac) then frac
    else
      var (y, e) := Normalize(frac);
      var exp1 := exp + e + And(Shr(y, 52), 0x7FF) - BIAS;
      if exp1 < -1075 then 0
      else if exp1 > 1023 then INF
      else if exp1 < -1022 then
        RoundUnits(NearestEven(Units(WithExponent(y, exp1 + 53 + BIAS)), 53))
      else
        WithExponent(y, exp1 + BIAS)
  }

  // ----- units

  lemma BitLenAtLeast(n: nat, k: nat)
    requires n >= Pow2(k) || (k == 53 && n >= 2 * FRAC)
    ensures BitLen(n) > k
  {
    Pow2_52();
    hide Pow2, BitLen;
    BitLenBounds(n);
    if BitLen(n) <= k { Pow2Mono(BitLen(n), k); assert false; }
  }

  lemma UnitsValue(b: Pattern)
    requires Finite(b)
    ensures RAbs(Value(b)) == Dyadic(Units(b), -1074)
  {
    hide Dyadic, ShiftUp;
    FiniteIsCandidate(b);
    DyadicShift(Mant(b), -1074, Exp(b) + 1074);
  }

  /** RoundUnits is correct rounding. */
  lemma RoundUnitsCorrect(n: nat)
    ensures RoundedTo(Dyadic(n, -1074), RoundUnits(n))
  {
    hide Dyadic, NearestTo, NearestEven, Pow2, BitLen;
    DyadicSign(n, -1074);
    if n < 2 * FRAC {
      PowZero();
      IntegerRounding(n, -1074, 0);
      ByDivision(n, 0, n, 0);
      assert Encode(n, -1074) == n;
      assert NearestTo(RAbs(Dyadic(n, -1074)), n, -1074);
    } else {
      BitLenAtLeast(n, 53);
      var k := BitLen(n) - 53;
      TopWindow(n, k);
      IntegerRounding(n, -1074, k);
      assert NearestTo(RAbs(Dyadic(n, -1074)), NearestEven(n, k), k - 1074);
    }
  }

  lemma TopWindow(n: nat, k: nat)
    requires n > 0 && k + 53 == BitLen(n)
    ensures FRAC * Pow2(k) <= n < 2 * FRAC * Pow2(k)
  {
    hide Pow2, BitLen;
    BitLenBounds(n);
    Pow2_52();
    Pow2Add(52, k);
    Pow2Add(53, k);
  }

  /** The pattern and the units of a normal significand. */
  lemma PatternUnits(m: nat, e: nat)
    requires FRAC <= m < 2 * FRAC && 1 <= e < 2047
    ensures var b := (e - 1) * FRAC + m;
            b < INF && ExpField(b) == e && Frac(b) == m - FRAC && SignBit(b) == 0
            && Mant(b) == m && Units(b) == ShiftUp(m, e - 1)
  {
    hide ShiftUp;
    Fields((e - 1) * FRAC + m, 0, e, m - FRAC);
  }

  lemma SmallUnits(n: nat)
    requires n < 2 * FRAC
    ensures Units(n) == n && n < INF && SignBit(n) == 0
  {
    hide ShiftUp;
    PowZero();
    ShiftUpZero(n);
    if n < FRAC { Fields(n, 0, 0, n); } else { Fields(n, 0, 1, n - FRAC); }
  }

  lemma ShiftUpZero(n: nat)
    ensures ShiftUp(n, 0) == n
  {
    PowZero();
  }

  /** A multiple of 2^j with at most 53 significant bits is not rounded at all. */
  lemma RoundUnitsExact(n: nat, d: nat, j: nat)
    requires n == ShiftUp(d, j) && d < 2 * FRAC && BitLen(n) <= 2098
    ensures RoundUnits(n) < INF && SignBit(RoundUnits(n)) == 0 && Units(RoundUnits(n)) == n
    ensures n >= 2 * FRAC ==> ExpField(RoundUnits(n)) == BitLen(n) - 52
  {
    hide Pow2, BitLen, ShiftUp, NearestEven, Units, SignBit, ExpField;
    if n < 2 * FRAC {
      SmallUnits(n);
    } else {
      BitLenAtLeast(n, 53);
      var k := BitLen(n) - 53;
      ExactMultiple(n, d, j, k);
      var m := ShiftUp(d, j - k);
      ShiftUpTwice(d, j - k, k);
      ByDivision(n, k, m, 0);
      TopWindow(n, k);
      Window(m, k);
      PatternUnits(m, k + 1);
    }
  }

  lemma ExactMultiple(n: nat, d: nat, j: nat, k: nat)
    requires n == ShiftUp(d, j) && d < 2 * FRAC && n > 0 && k + 53 == BitLen(n)
    ensures k <= j
  {
    hide Pow2, BitLen, ShiftUp;
    BitLenBounds(n);
    Pow2_52();
    ShiftUpBelow(d, j, 53);
    if k > j { Pow2Mono(53 + j, 52 + k); assert false; }
  }

  lemma ShiftUpBelow(d: nat, j: nat, a: nat)
    requires d < Pow2(a)
    ensures ShiftUp(d, j) < Pow2(a + j)
  {
    hide *;
    Pow2Add(a, j);
    MulStrict(d, Pow2(a), Pow2(j));
  }

  lemma Window(m: nat, k: nat)
    requires FRAC * Pow2(k) <= m * Pow2(k) < 2 * FRAC * Pow2(k)
    ensures FRAC <= m < 2 * FRAC
  {
    hide *;
    if m < FRAC { MulStrict(m, FRAC, Pow2(k)); }
    if m >= 2 * FRAC { MulMono(2 * FRAC, m, Pow2(k)); }
  }

  lemma ShiftUpTwice(x: nat, a: nat, b: nat)
    ensures ShiftUp(ShiftUp(x, a), b) == ShiftUp(x, a + b)
    ensures ShiftUp(x, a) * Pow2(b) == ShiftUp(x, a + b)
  {
    hide Pow2;
    Pow2Add(a, b);
    MulAssoc(x, Pow2(a), Pow2(b));
  }

  lemma ShiftUpCancel(x: nat, y: nat, a: nat)
    ensures ShiftUp(x, a) == ShiftUp(y, a) <==> x == y
    ensures ShiftUp(x, a) < ShiftUp(y, a) <==> x < y
  {
    hide Pow2;
    if x < y { MulStrict(x, y, Pow2(a)); } else { MulMono(y, x, Pow2(a)); if y < x { MulStrict(y, x, Pow2(a)); } }
  }

  // ----- Frexp and Ldexp

  /** m is the significand of the number n, scaled to 53 bits. */
  ghost predicate Scaled(m: nat, n: nat) {
    FRAC <= m < 2 * FRAC && ShiftUp(m, BitLen(n)) == ShiftUp(n, 53)
  }

  lemma WithExponentIs(x: Pattern, e: nat)
    requires x < SIGN && e < 2048
    ensures WithExponent(x, e) == e * FRAC + Frac(x)
  {
    hide And, Or, Shl, Pow2, ShiftUp;
    Pow2_52();
    ShlIs(0x7FF, 52, 0, 0x7FF * FRAC);
    ShlIs(e, 52, 0, e * FRAC);
    var q, f := x / FRAC, x % FRAC;
    assert x == q * FRAC + f && q < 2048;
    AndExponent(q, f);
    OrDisjoint(e, f, 52);
    OrSwap(e, f);
  }

  lemma AndExponent(q: nat, f: nat)
    requires q < 2048 && f < FRAC
    ensures And(q * FRAC + f, 0x7FF * FRAC) == q * FRAC
  {
    hide And, ShiftUp, Pow2;
    Pow2_52();
    AndShifted(q, f, 0x7FF, 52);
    AndLow(q, 11);
  }

  lemma OrSwap(e: nat, f: nat)
    requires e < 2048 && f < FRAC
    ensures Or(f, e * FRAC) == e * FRAC + f < WORD
  {
    hide Or, Pow2;
    Pow2_52();
    OrDisjoint(e, f, 52);
  }

  /** Normalising: a subnormal number becomes a normal one 2^52 times as large, others stay.
      The exponent field counts the bits, the fraction is the scaled
      significand without its leading bit. */
  lemma NormalizeIs(x: Pattern) returns (m: nat)
    requires 0 < x < INF
    ensures Units(x) > 0 && Scaled(m, Units(x))
    ensures var (y, e) := Normalize(x);
            && y < INF && Frac(y) == m - FRAC
            && e + And(Shr(y, 52), 0x7FF) == BitLen(Units(x)) - 52
            && (if ExpField(x) == 0 then e == -52 && Units(y) == ShiftUp(Units(x), 52) else e == 0 && y == x)
  {
    hide Pow2, BitLen, ShiftUp, RoundUnits, And, Shr;
    var (y, e) := Normalize(x);
    PositiveFields(x);
    SplitFields(y);
    if ExpField(x) == 0 {
      m := SubnormalScaled(x);
    } else {
      m := Mant(x);
      NormalScaled(m, ExpField(x));
      PatternUnits(m, ExpField(x));
    }
  }

  lemma PositiveFields(x: Pattern)
    requires x < INF
    ensures SignBit(x) == 0 && Finite(x) && x == ExpField(x) * FRAC + Frac(x) && Frac(x) < FRAC && ExpField(x) < 2047
  {
    assert x == Magnitude(x);
  }

  lemma NormalScaled(m: nat, e: nat)
    requires FRAC <= m < 2 * FRAC && e >= 1
    ensures var n := ShiftUp(m, e - 1); n > 0 && BitLen(n) == 52 + e && Scaled(m, n)
  {
    hide Pow2, BitLen, ShiftUp;
    var n := ShiftUp(m, e - 1);
    Pow2_52();
    ScaleBounds(m, 52, 53, e - 1);
    BitLenUnique(n, 52 + e);
    ShiftUpTwice(m, e - 1, 53);
  }

  lemma ScaleBounds(v: nat, lo: nat, hi: nat, k: nat)
    requires Pow2(lo) <= v < Pow2(hi)
    ensures Pow2(lo + k) <= ShiftUp(v, k) < Pow2(hi + k)
  {
    hide *;
    Pow2Add(lo, k);
    MulMono(Pow2(lo), v, Pow2(k));
    ShiftUpBelow(v, k, hi);
  }

  lemma SubnormalScaled(x: Pattern) returns (m: nat)
    requires 0 < x < FRAC && ExpField(x) == 0
    ensures Units(x) == x && Scaled(m, x)
    ensures var y := RoundUnits(ShiftUp(x, 52));
            y < INF && Frac(y) == m - FRAC && ExpField(y) == BitLen(x) && Units(y) == ShiftUp(x, 52)
  {
    hide Pow2, BitLen, ShiftUp, RoundUnits, Units;
    SmallUnits(x);
    var l := BitLen(x);
    BitLenBounds(x);
    Pow2_52();
    if l > 52 { Pow2Mono(52, l - 1); assert false; }
    m := ShiftUp(x, 53 - l);
    ScaleBounds(x, l - 1, l, 53 - l);
    ShiftUpTwice(x, 53 - l, l);
    NormalPattern(x, m, l);
  }

  lemma NormalPattern(x: nat, m: nat, l: nat)
    requires x > 0 && 1 <= l <= 52 && FRAC <= m < 2 * FRAC && ShiftUp(m, l) == ShiftUp(x, 53)
    ensures var y := RoundUnits(ShiftUp(x, 52));
            y < INF && Frac(y) == m - FRAC && ExpField(y) == l && Units(y) == ShiftUp(x, 52)
  {
    hide Pow2, BitLen, ShiftUp, Units;
    var n := ShiftUp(m, l - 1);
    ShiftUpTwice(m, l - 1, 1);
    ShiftUpTwice(x, 52, 1);
    ShiftUpCancel(n, ShiftUp(x, 52), 1);
    NormalScaled(m, l);
    PatternUnits(m, l);
    RoundNormal(m, l);
  }

  /** The units of a normal number round to its own pattern. */
  lemma RoundNormal(m: nat, e: nat)
    requires FRAC <= m < 2 * FRAC && 1 <= e < 2047
    ensures RoundUnits(ShiftUp(m, e - 1)) == (e - 1) * FRAC + m
  {
    hide Pow2, BitLen, ShiftUp, NearestEven;
    NormalScaled(m, e);
    var n := ShiftUp(m, e - 1);
    if e == 1 {
      ShiftUpZero(m);
    } else {
      assert n >= 2 * FRAC by { AtLeastTwice(m, e); }
      ByDivision(n, e - 1, m, 0);
    }
  }

  lemma AtLeastTwice(m: nat, e: nat)
    requires FRAC <= m && e >= 2
    ensures ShiftUp(m, e - 1) >= 2 * FRAC
  {
    hide *;
    Pow2Mono(1, e - 1);
    PowOne();
    MulMono(2, Pow2(e - 1), m);
  }

  /** Frexp: the exponent is the bit length, the fraction orders as the significand. */
  lemma FrexpIs(f: Pattern) returns (m: nat)
    requires 0 < f < INF
    ensures Units(f) > 0 && Scaled(m, Units(f))
    ensures Frexp(f) == ((BIAS - 2) * FRAC + m, BitLen(Units(f)) - 1074)
  {
    hide Pow2, BitLen, ShiftUp, And, Shr, WithExponent, Units, Scaled, Normalize;
    PositiveFields(f);
    m := NormalizeIs(f);
    var (y, e) := Normalize(f);
    WithExponentIs(y, BIAS - 1);
  }

  /** Ldexp is exact when the result is finite and the exponent does not shrink. */
  lemma LdexpIs(y: Pattern, k: nat)
    requires 0 < y < INF && BitLen(Units(y)) + k <= 2098
    ensures Ldexp(y, k) < INF && Units(Ldexp(y, k)) == ShiftUp(Units(y), k)
  {
    hide Pow2, BitLen, ShiftUp, And, Shr, WithExponent, Units, Normalize, RoundUnits, NearestEven;
    PositiveFields(y);
    var n := Units(y);
    var m := NormalizeIs(y);
    var (z, e) := Normalize(y);
    var l := BitLen(n);
    BitLenPositive(n);
    var exp := k + l - 1075;
    assert exp == k + e + And(Shr(z, 52), 0x7FF) - BIAS;
    if exp < -1022 {
      WithExponentIs(z, exp + 53 + BIAS);
      PatternUnits(m, k + l + 1);
      ShiftUpTwice(m, l, k);
      ShiftUpTwice(n, 53, k);
      ShiftUpTwice(n, k, 53);
      var t := ShiftUp(n, k);
      ByDivision53(t);
      BelowSubnormal(n, l, k);
      SmallRound(t);
    } else {
      WithExponentIs(z, exp + BIAS);
      PatternUnits(m, k + l - 52);
      ShiftUpTwice(m, k + l - 53, 53);
      ShiftUpTwice(m, l, k);
      ShiftUpTwice(n, 53, k);
      ShiftUpTwice(n, k, 53);
      ShiftUpCancel(ShiftUp(m, k + l - 53), ShiftUp(n, k), 53);
    }
  }

  // ----- ldexp for every exponent

  /** The number y * 2^exp, with its significand in place. */
  lemma ScaledValue(y: Pattern, m: nat, exp: int)
    requires 0 < y < INF && Scaled(m, Units(y))
    ensures Value(y) * Dyadic(1, exp) == Dyadic(m, BitLen(Units(y)) + exp - 1127) > 0.0
  {
    hide *;
    var n, l := Units(y), BitLen(Units(y));
    PositiveFields(y);
    PositiveValue(y);
    DyadicProduct(Mant(y), Exp(y), 1, exp);
    assert Mant(y) * 1 == Mant(y);
    UnitsShifted(y, exp);
    ScaledIs(m, n);
    ShiftedIs(n, 53, exp - 1127);
    ShiftedIs(m, l, exp - 1127);
    DyadicSign(m, l + exp - 1127);
  }

  lemma PositiveValue(y: Pattern)
    requires y < INF && Finite(y) && SignBit(y) == 0
    ensures Value(y) == Dyadic(Mant(y), Exp(y))
  {
  }

  lemma ScaledIs(m: nat, n: nat)
    requires Scaled(m, n)
    ensures FRAC <= m < 2 * FRAC && ShiftUp(m, BitLen(n)) == ShiftUp(n, 53)
  {
  }

  lemma ShiftedIs(n: nat, k: nat, e: int)
    ensures Dyadic(ShiftUp(n, k), e) == Dyadic(n, e + k)
  {
    hide Dyadic, Pow2;
    DyadicShift(n, e, k);
  }

  lemma UnitsShifted(y: Pattern, exp: int)
    requires Finite(y)
    ensures Dyadic(Units(y), exp - 1074) == Dyadic(Mant(y), Exp(y) + exp)
  {
    hide Dyadic, ShiftUp;
    ShiftedIs(Mant(y), Exp(y) + 1074, exp - 1074);
  }

  /** v = m * 2^q, rounded at the place that q is above the lowest exponent or at it. */
  lemma RoundedHere(v: real, m: nat, q: int, k: nat)
    requires v == Dyadic(m, q) > 0.0 && FRAC <= m < 2 * FRAC && q + k >= -1074 && (k == 0 || q + k == -1074)
    ensures var t := NearestEven(m, k); RoundedTo(v, if Encode(t, q + k) >= INF then INF else Encode(t, q + k))
  {
    hide Dyadic, Pow2, NearestEven, NearestTo;
    PowZero();
    MulMono(1, Pow2(k), 2 * FRAC);
    IntegerRounding(m, q, k);
    assert NearestTo(RAbs(v), NearestEven(m, k), q + k);
  }

  lemma NearestOfSmall(m: nat, k: nat)
    requires m < 2 * FRAC
    ensures k >= 54 ==> NearestEven(m, k) == 0
    ensures k == 0 ==> NearestEven(m, k) == m
    ensures 1 <= k ==> NearestEven(m, k) <= FRAC
  {
    hide Pow2;
    if k >= 54 {
      Pow2Mono(54, k);
      Pow2_52();
      Pow2Double(54);
      ByDivision(m, k, 0, m);
    } else if k == 0 {
      PowZero();
      ByDivision(m, 0, m, 0);
    } else {
      PowOne();
      Pow2Mono(1, k);
      DivNat(m, Pow2(k));
      var q := m / Pow2(k);
      if q >= FRAC { MulMono(FRAC, q, Pow2(k)); MulMono(2, Pow2(k), FRAC); assert false; }
      assert NearestEven(m, k) <= q + 1;
    }
  }

  /** What Ldexp computes of the normalised significand m, by where its last bit lands. */
  function LdexpOf(m: nat, q: int): Pattern
    requires m < 2 * FRAC
  {
    if q < -1127 then 0
    else if q > 971 then INF
    else if q < -1074 then RoundUnits(NearestEven(ShiftUp(m, q + 1127), 53))
    else (q + 1074) * FRAC + m
  }

  lemma LdexpParts(y: Pattern, exp: int) returns (m: nat)
    requires 0 < y < INF
    ensures Scaled(m, Units(y)) && m < 2 * FRAC
    ensures Ldexp(y, exp) == LdexpOf(m, BitLen(Units(y)) + exp - 1127)
  {
    hide Pow2, BitLen, ShiftUp, And, Shr, WithExponent, Units, Normalize, RoundUnits, NearestEven;
    PositiveFields(y);
    m := NormalizeIs(y);
    var (z, e) := Normalize(y);
    var exp1 := exp + BitLen(Units(y)) - 1075;
    assert exp1 == exp + e + And(Shr(z, 52), 0x7FF) - BIAS;
    if exp1 < -1022 {
      if exp1 >= -1075 {
        WithExponentIs(z, exp1 + 53 + BIAS);
        PatternUnits(m, exp1 + 53 + BIAS);
      }
    } else if exp1 <= 1023 {
      WithExponentIs(z, exp1 + BIAS);
    }
  }

  lemma NearestShifted(m: nat, a: nat, k: nat)
    ensures NearestEven(ShiftUp(m, a), k + a) == NearestEven(m, k)
  {
    hide Pow2, Settle;
    DivNat(m, Pow2(k));
    var q, r := m / Pow2(k), m % Pow2(k);
    Pow2Add(k, a);
    SettleScaled(q, r, Pow2(k), Pow2(a));
    assert ShiftUp(m, a) == q * (Pow2(k) * Pow2(a)) + r * Pow2(a) by {
      Distribute(q, Pow2(k), r, Pow2(a));
    }
    MulStrict(r, Pow2(k), Pow2(a));
    ByDivision(m, k, q, r);
    ByDivision(ShiftUp(m, a), k + a, q, r * Pow2(a));
  }

  lemma SettleScaled(q: nat, r: nat, p: nat, c: nat)
    requires c > 0
    ensures Settle(q, r * c, p * c) == Settle(q, r, p)
  {
    if 2 * r < p { MulStrict(2 * r, p, c); }
    if 2 * r > p { MulStrict(p, 2 * r, c); }
    assert 2 * (r * c) == (2 * r) * c;
  }

  /** LdexpOf keeps what fits and rounds once at -1074. */
  lemma LdexpOfIs(m: nat, q: int, k: nat)
    requires FRAC <= m < 2 * FRAC && k == if q < -1074 then -1074 - q else 0
    ensures var t := NearestEven(m, k); LdexpOf(m, q) == if Encode(t, q + k) >= INF then INF else Encode(t, q + k)
  {
    hide Pow2, NearestEven, ShiftUp;
    NearestOfSmall(m, k);
    EncodeIs(NearestEven(m, k), q + k);
    if -1127 <= q < -1074 { NearestShifted(m, q + 1127, k); }
  }

  /** Ldexp is the number times 2^exp, rounded once: for every exponent, with results below
      the normal range and overflow. */
  lemma LdexpRounds(y: Pattern, exp: int)
    requires 0 < y < INF && Finite(y)
    ensures RoundedTo(Value(y) * Dyadic(1, exp), Ldexp(y, exp))
  {
    hide *;
    var m := LdexpParts(y, exp);
    var q := BitLen(Units(y)) + exp - 1127;
    ScaledValue(y, m, exp);
    ScaledIs(m, Units(y));
    var k := if q < -1074 then -1074 - q else 0;
    RoundedHere(Value(y) * Dyadic(1, exp), m, q, k);
    LdexpOfIs(m, q, k);
  }

  lemma EncodeIs(m: nat, q: int)
    requires q >= -1074
    ensures Encode(m, q) == (q + 1074) * FRAC + m
    ensures q >= 972 && m >= FRAC ==> Encode(m, q) >= INF
    ensures q < 972 && m < 2 * FRAC ==> Encode(m, q) < INF
  {
  }

  lemma BitLenPositive(n: nat)
    requires n > 0
    ensures BitLen(n) >= 1
  {
  }

  lemma ByDivision53(t: nat)
    ensures NearestEven(ShiftUp(t, 53), 53) == t
  {
    hide NearestEven, ShiftUp, Pow2;
    ByDivision(ShiftUp(t, 53), 53, t, 0);
  }

  lemma BelowSubnormal(n: nat, l: nat, k: nat)
    requires n > 0 && l == BitLen(n) && k + l < 53
    ensures ShiftUp(n, k) < 2 * FRAC
  {
    hide ShiftUp, Pow2, BitLen;
    BitLenBounds(n);
    ShiftUpBelow(n, k, l);
    Pow2Mono(l + k, 53);
    Pow2_52();
  }

  lemma SmallRound(t: nat)
    requires t < 2 * FRAC
    ensures RoundUnits(t) == t < INF && Units(t) == t
  {
    hide Units;
    SmallUnits(t);
  }

  // ----- order

  /** Positive patterns are ordered as the numbers they stand for. */
  lemma UnitsOrder(a: Pattern, b: Pattern)
    requires a < INF && b < INF
    ensures a < b ==> Units(a) < Units(b)
    ensures a < b ==> Exp(a) <= Exp(b)
  {
    if a < b {
      PositiveFields(a);
      PositiveFields(b);
      if ExpField(a) < ExpField(b) && ExpField(b) > 1 {
        hide Pow2, ShiftUp, ExpField, Frac;
        OrderAcross(Mant(a), Exp(a) + 1074, Mant(b), Exp(b) + 1074);
      } else {
        assert Exp(a) == Exp(b) && Mant(a) < Mant(b);
        hide Pow2, ShiftUp, ExpField, Frac;
        ShiftUpCancel(Mant(a), Mant(b), Exp(a) + 1074);
      }
    }
  }

  lemma OrderAcross(m: nat, i: nat, n: nat, j: nat)
    requires m < 2 * FRAC && FRAC <= n && i < j
    ensures ShiftUp(m, i) < ShiftUp(n, j)
  {
    hide *;
    Pow2Mono(i + 1, j);
    Pow2Double(i + 1);
    MulStrict(m, 2 * FRAC, Pow2(i));
    MulMono(FRAC, n, Pow2(j));
    MulMono(2 * Pow2(i), Pow2(j), FRAC);
    assert (2 * FRAC) * Pow2(i) == (2 * Pow2(i)) * FRAC;
    assert Pow2(j) * FRAC == FRAC * Pow2(j);
  }

  lemma UnitsOrderIff(a: Pattern, b: Pattern)
    requires a < INF && b < INF
    ensures a <= b <==> Units(a) <= Units(b)
    ensures a <= b ==> Exp(a) <= Exp(b)
  {
    hide Units, Exp;
    UnitsOrder(a, b);
    UnitsOrder(b, a);
  }

  // ----- one reduction

  /** y * 2^k is the largest such multiple not above r: y * 2^k <= r < 2 * y * 2^k. */
  lemma LargestMultiple(nr: nat, mr: nat, ny: nat, my: nat) returns (k: nat)
    requires 0 < ny <= nr && Scaled(mr, nr) && Scaled(my, ny)
    ensures k == BitLen(nr) - (if mr < my then 1 else 0) - BitLen(ny)
    ensures ShiftUp(ny, k) <= nr < 2 * ShiftUp(ny, k)
  {
    var lr, ly := BitLen(nr), BitLen(ny);
    BitLenBounds(nr);
    BitLenBounds(ny);
    hide Pow2, BitLen, ShiftUp;
    if lr < ly { Pow2Mono(lr, ly - 1); assert false; }
    ShiftUpCancel(ny, nr, 53);
    ShiftUpCancel(nr, ny, 53);
    ShiftUpCancel(mr, my, lr);
    assert lr == ly ==> my <= mr;
    k := lr - (if mr < my then 1 else 0) - ly;
    var t := ShiftUp(ny, k);
    ShiftUpTwice(ny, k, 53);
    ShiftUpTwice(ny, 53, k);
    ShiftUpTwice(my, ly, k);
    assert ShiftUp(t, 53) == ShiftUp(my, ly + k);
    if mr < my {
      ShiftUpDouble(my, lr);
      ShiftUpDouble(mr, lr);
    }
    WithinTwice(t, nr, mr, my, lr);
  }

  lemma WithinTwice(t: nat, nr: nat, mr: nat, my: nat, lr: nat)
    requires FRAC <= mr < 2 * FRAC && FRAC <= my < 2 * FRAC && lr >= 1
    requires ShiftUp(mr, lr) == ShiftUp(nr, 53)
    requires ShiftUp(t, 53) == ShiftUp(my, if mr < my then lr - 1 else lr)
    ensures t <= nr < 2 * t
  {
    hide Pow2, ShiftUp;
    TwoShifts(t, 53);
    ShiftUpCancel(nr, t, 53);
    ShiftUpCancel(nr, 2 * t, 53);
    if mr < my {
      ShiftUpDouble(my, lr);
      ShiftUpDouble(mr, lr);
      ShiftUpCancel(mr, my, lr);
      TwoShifts(mr, lr - 1);
      ShiftUpCancel(2 * mr, my, lr - 1);
    } else {
      TwoShifts(my, lr);
      ShiftUpCancel(mr, my, lr);
      ShiftUpCancel(mr, 2 * my, lr);
    }
  }

  lemma TwoShifts(x: nat, a: nat)
    ensures ShiftUp(2 * x, a) == 2 * ShiftUp(x, a)
  {
    hide Pow2;
    assert (2 * x) * Pow2(a) == 2 * (x * Pow2(a));
  }

  /** Subtracting t from r when t <= r < 2t needs no rounding. */
  lemma ExactSubtraction(r: Pattern, t: Pattern)
    requires r < INF && t < INF && Units(t) <= Units(r) < 2 * Units(t)
    ensures var d := Units(r) - Units(t);
            RoundUnits(d) < INF && Units(RoundUnits(d)) == d
  {
    hide Pow2, BitLen, ShiftUp, RoundUnits, ExpField, Frac;
    UnitsOrderIff(t, r);
    var a, b := Exp(r) + 1074, Exp(t) + 1074;
    var d := Units(r) - Units(t);
    ShiftUpTwice(Mant(r), a - b, b);
    ShiftUpCancel(Mant(t), ShiftUp(Mant(r), a - b), b);
    ShiftUpCancel(ShiftUp(Mant(r), a - b), Mant(t), b);
    TwoShifts(Mant(t), b);
    ShiftUpCancel(ShiftUp(Mant(r), a - b), 2 * Mant(t), b);
    var c := ShiftUp(Mant(r), a - b) - Mant(t);
    ShiftUpMinus(ShiftUp(Mant(r), a - b), Mant(t), b);
    LengthBound(r, d);
    RoundUnitsExact(d, c, b);
  }

  lemma ShiftUpMinus(x: nat, y: nat, a: nat)
    requires y <= x
    ensures ShiftUp(x - y, a) == ShiftUp(x, a) - ShiftUp(y, a)
  {
    hide Pow2;
    MulMinus(x, y, Pow2(a));
  }

  lemma LengthBound(r: Pattern, d: nat)
    requires r < INF && d <= Units(r)
    ensures BitLen(d) <= 2098
  {
    hide Pow2, BitLen, ShiftUp;
    PositiveFields(r);
    Pow2_52();
    ShiftUpBelow(Mant(r), Exp(r) + 1074, 53);
    if d > 0 {
      BitLenBounds(d);
      if BitLen(d) > 2098 { Pow2Mono(53 + (Exp(r) + 1074), BitLen(d) - 1); assert false; }
    } else {
      assert BitLen(0) == 0 by { BitLenZero(); }
    }
  }

  lemma BitLenZero()
    ensures BitLen(0) == 0
  {
  }

  /** t = y * 2^k can be taken from r, and the hardware subtraction is exact. */
  predicate Subtracts(r: Pattern, y: Pattern, k: int, t: Pattern) {
    && k >= 0 && t < INF
    && Units(t) == ShiftUp(Units(y), k)
    && 0 < Units(t) <= Units(r)
    && var d := Units(r) - Units(t);
    && RoundUnits(d) < INF && Units(RoundUnits(d)) == d
  }

  /** One pass of the loop subtracts an exact multiple of y exactly. */
  lemma Reduce(r: Pattern, y: Pattern)
    requires 0 < y <= r < INF
    ensures var k := (if Frexp(r).0 < Frexp(y).0 then Frexp(r).1 - 1 else Frexp(r).1) - Frexp(y).1;
            Subtracts(r, y, k, Ldexp(y, k))
  {
    hide Pow2, BitLen, ShiftUp, RoundUnits, Units, Frexp, Ldexp, Scaled, Exp, Mant;
    UnitsOrderIff(y, r);
    var mr := FrexpIs(r);
    var my := FrexpIs(y);
    var k := LargestMultiple(Units(r), mr, Units(y), my);
    LengthBound(r, Units(r));
    LdexpIs(y, k);
    ExactSubtraction(r, Ldexp(y, k));
  }

  lemma AfterSubtraction(r: Pattern, y: Pattern, k: int, t: Pattern)
    requires Subtracts(r, y, k, t) && r < INF && Units(y) > 0
    ensures var s := RoundUnits(Units(r) - Units(t));
            && s < r && Units(s) % Units(y) == Units(r) % Units(y)
  {
    hide Pow2, Units, RoundUnits;
    UnitsOrderIff(r, RoundUnits(Units(r) - Units(t)));
    RemainderKept(Units(r), Units(y), Pow2(k));
  }

  lemma RemainderKept(n: nat, y: nat, p: nat)
    requires y > 0 && y * p <= n
    ensures (n - y * p) % y == n % y
  {
    DivNat(n, y);
    var q, r := n / y, n % y;
    MulMinus(q, p, y);
    assert n - y * p == (q - p) * y + r;
    DivModUnique(n - y * p, y, q - p, r);
  }

  /** The remainder of the magnitudes, with nothing rounded. */
  predicate ExactRemainder(x: Pattern, y: Pattern, r: Pattern) {
    Units(y) > 0 && Units(r) == Units(x) % Units(y)
  }

  /** The loop of `mod`: r is never negative, except that it may be minus zero. */
  method ReduceBelow(r0: Pattern, y: Pattern) returns (r: Pattern)
    requires (r0 < INF || r0 == SIGN) && 0 < y <= INF
    ensures r0 == SIGN || y == INF ==> r == r0
    ensures r0 < INF && y < INF ==> r < y && ExactRemainder(r0, y, r)
  {
    hide Pow2, Units, Frexp, Ldexp, RoundUnits, ExpField, Frac, Exp, Mant, SignBit, Subtracts;
    var (yfr, yexp) := Frexp(y);
    r := r0;
    SignOf(r);
    if y < INF { UnitsPositive(y); }
    while SignBit(r) == 0 && r >= y
      invariant SignBit(r) == 0 <==> r < INF
      invariant r0 == SIGN || y == INF ==> r == r0
      invariant r0 < INF && y < INF ==> r < INF && Units(r) % Units(y) == Units(r0) % Units(y)
      decreases r
    {
      Reduce(r, y);
      var (rfr, rexp) := Frexp(r);
      if rfr < yfr {
        rexp := rexp - 1;
      }
      var t := Ldexp(y, rexp - yexp);
      AfterSubtraction(r, y, rexp - yexp, t);
      assert Units(t) <= Units(r) && RoundUnits(Units(r) - Units(t)) < INF by { SubtractsMeans(r, y, rexp - yexp, t); }
      r := RoundUnits(Units(r) - Units(t));
      SignOf(r);
    }
    if r0 < INF && y < INF {
      UnitsOrderIff(y, r);
      BelowDivisor(Units(r), Units(y));
    }
  }

  lemma SubtractsMeans(r: Pattern, y: Pattern, k: int, t: Pattern)
    requires Subtracts(r, y, k, t)
    ensures Units(t) <= Units(r) && RoundUnits(Units(r) - Units(t)) < INF
  {
  }

  lemma BelowDivisor(n: nat, y: nat)
    requires n < y
    ensures n % y == n
  {
    DivModUnique(n, y, 0, n);
  }

  lemma SignOf(r: Pattern)
    requires r < INF || r == SIGN
    ensures SignBit(r) == 0 <==> r < INF
  {
  }

  lemma UnitsPositive(y: Pattern)
    requires 0 < y < INF
    ensures Units(y) > 0
  {
    hide Units;
    SmallUnits(0);
    UnitsOrder(0, y);
  }

  /** The code after the special cases. */
  method ModOf(x: Pattern, y: Pattern) returns (r: Pattern)
    requires Finite(x) && !IsZero(y) && (Finite(y) || IsInf(y))
    ensures IsInf(y) ==> r == x
    ensures Finite(y) ==> Finite(r) && SignBit(r) == SignBit(x) && ExactRemainder(x, y, r)
  {
    hide *;
    AbsIs(x);
    AbsIs(y);
    var negative := SignBit(x) == 1 && !IsZero(x);
    var r0 := if negative then x - SIGN else x;
    r := ReduceBelow(r0, AbsBits(y));
    FinishMod(x, y, r0, r);
    if negative { r := r + SIGN; }
  }

  /** `mod`: the exact remainder with the sign of x. */
  method Mod(x: Pattern, y: Pattern) returns (r: Pattern)
    ensures IsZero(y) || IsInf(x) || IsNaN(x) || IsNaN(y) ==> r == NAN
    ensures Finite(x) && IsInf(y) ==> r == x
    ensures Finite(x) && Finite(y) && !IsZero(y) ==> Finite(r) && SignBit(r) == SignBit(x) && ExactRemainder(x, y, r)
  {
    hide Units, Frac, SignBit, AbsBits, ExactRemainder;
    if IsZero(y) || IsInf(x) || IsNaN(x) || IsNaN(y) { return NAN; }
    r := ModOf(x, y);
  }

  lemma FinishMod(x: Pattern, y: Pattern, r0: Pattern, r: Pattern)
    requires Finite(x) && !IsZero(y) && (Finite(y) || IsInf(y))
    requires r0 == if SignBit(x) == 1 && !IsZero(x) then x - SIGN else x
    requires r0 == SIGN || AbsBits(y) == INF ==> r == r0
    requires r0 < INF && AbsBits(y) < INF ==> r < AbsBits(y) && ExactRemainder(r0, AbsBits(y), r)
    ensures r < INF || r == SIGN
    ensures r < INF ==> r + SIGN < WORD
    ensures var s := if SignBit(x) == 1 && !IsZero(x) then r + SIGN else r;
            && (IsInf(y) ==> s == x)
            && (Finite(y) ==> Finite(s) && SignBit(s) == SignBit(x) && ExactRemainder(x, y, s))
  {
    hide Units, ExpField, Frac, AbsBits;
    AbsIs(x);
    AbsIs(y);
    ZeroUnits();
    if AbsBits(y) < INF { UnitsPositive(AbsBits(y)); }
    hide SignBit;
    RestoreSign(r);
    if Finite(y) && r0 == SIGN { BelowDivisor(0, Units(y)); }
  }

  lemma ZeroUnits()
    ensures SignBit(SIGN) == 1 && Units(SIGN) == 0 && Units(0) == 0
  {
    SmallUnits(0);
    AbsIs(SIGN);
    assert AbsBits(SIGN) == 0;
  }

  /** Taking the magnitude changes only the sign. */
  lemma AbsIs(x: Pattern)
    ensures AbsBits(x) < SIGN && SignBit(x) <= 1 && x == if SignBit(x) == 1 then SIGN + AbsBits(x) else AbsBits(x)
    ensures IsZero(x) <==> AbsBits(x) == 0
    ensures IsInf(x) <==> AbsBits(x) == INF
    ensures Finite(x) <==> AbsBits(x) < INF
    ensures Units(AbsBits(x)) == Units(x)
  {
    hide ShiftUp;
    DivNat(x, SIGN);
    var m := AbsBits(x);
    assert ExpField(m) == ExpField(x) && Frac(m) == Frac(x) by { Fields(m, 0, ExpField(x), Frac(x)); }
  }

  lemma RestoreSign(r: Pattern)
    requires r < INF || r == SIGN
    ensures Finite(r)
    ensures r < INF ==> r + SIGN < WORD && Finite(r + SIGN) && SignBit(r + SIGN) == 1
    ensures r < INF ==> SignBit(r) == 0 && Units(r + SIGN) == Units(r)
  {
    if r < INF {
      PositiveFields(r);
      Fields(r + SIGN, 1, ExpField(r), Frac(r));
    }
    hide ShiftUp;
  }

  /** In terms of values: |r| < |y|, and |x| is a whole multiple of |y| plus |r|. */
  lemma RemainderMeaning(x: Pattern, y: Pattern, r: Pattern) returns (q: nat)
    requires Finite(x) && Finite(y) && Finite(r) && ExactRemainder(x, y, r)
    ensures RAbs(Value(r)) < RAbs(Value(y))
    ensures RAbs(Value(x)) == q as real * RAbs(Value(y)) + RAbs(Value(r))
  {
    hide Units, Dyadic, Value;
    UnitsValue(x);
    UnitsValue(y);
    UnitsValue(r);
    DivNat(Units(x), Units(y));
    q := Units(x) / Units(y);
    DyadicCompare(Units(r), Units(y), -1074);
    DyadicProduct(q, 0, Units(y), -1074);
    DyadicZero(q);
    DyadicSum(q * Units(y), Units(r), -1074);
  }

  lemma SignedValue(b: Pattern)
    requires Finite(b)
    ensures Value(b) == if SignBit(b) == 1 then -RAbs(Value(b)) else RAbs(Value(b))
    ensures RAbs(Value(b)) >= 0.0
  {
    hide Dyadic, SignBit, Mant, Exp;
    DyadicSign(Mant(b), Exp(b));
  }

  lemma SignedProduct(q: int, v: real)
    ensures (-q) as real * v == -(q as real * v) && (-q) as real * -v == q as real * v
        && q as real * -v == -(q as real * v)
  {
  }

  /** With its sign, which Mod takes from x: x - r is a whole multiple of y, and r lies on
      the same side of zero as x. */
  lemma SignedRemainder(x: Pattern, y: Pattern, r: Pattern) returns (q: int)
    requires Finite(x) && Finite(y) && Finite(r) && ExactRemainder(x, y, r) && SignBit(r) == SignBit(x)
    ensures RAbs(Value(r)) < RAbs(Value(y)) && Value(x) - Value(r) == q as real * Value(y)
    ensures if SignBit(x) == 1 then Value(x) <= Value(r) <= 0.0 else 0.0 <= Value(r) <= Value(x)
  {
    hide Value, Units, ExactRemainder, SignBit;
    var k := RemainderMeaning(x, y, r);
    SignedValue(x);
    SignedValue(y);
    SignedValue(r);
    q := if SignBit(x) == SignBit(y) then k else -(k as int);
    SignedProduct(k, RAbs(Value(y)));
    NatProduct(k, RAbs(Value(y)));
  }

  lemma NatProduct(k: nat, v: real)
    requires v >= 0.0
    ensures k as real * v >= 0.0
  {
  }
}
