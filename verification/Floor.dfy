/** math/floor.go: rounding to an integral value by adding into the bit pattern. */
module Floor {
  import opened Bits
  import opened Rounding
  import opened Float64
  import opened WidePair

  const ONE: nat := 0x3FF0_0000_0000_0000         // uvone

  // ----- what rounding to an integer means

  ghost function Gap(v: real, j: int): real { RAbs(j as real - v) }

  /** No integer is closer to v than n. */
  ghost predicate Closest(v: real, n: int) {
    forall j: int :: Gap(v, n) <= Gap(v, j)
  }

  ghost predicate TieToEven(v: real, n: int) {
    forall j: int :: Gap(v, j) == Gap(v, n) && j != n ==> n % 2 == 0
  }

  ghost predicate TieAway(v: real, n: int) {
    forall j: int :: Gap(v, j) == Gap(v, n) && j != n ==> j < n
  }

  /** r is the integer n with the sign of x. */
  ghost predicate IsIntegral(x: Pattern, r: Pattern, n: int) {
    Finite(r) && SignBit(r) == SignBit(x) && RAbs(Value(r)) == n as real
  }

  // ----- rounding M * 2^-k to an integer

  function HalfUp(t: nat, k: nat): nat {
    DivNat(t, Pow2(k));
    if 2 * (t % Pow2(k)) >= Pow2(k) then t / Pow2(k) + 1 else t / Pow2(k)
  }

  lemma GapIs(m: nat, k: nat, j: int)
    ensures Gap(Dyadic(m, -(k as int)), j) == Dyadic(Abs(j * Pow2(k) - m), -(k as int))
  {
    hide Dyadic, Pow2;
    DyadicShift(j, -(k as int), k);
    DyadicZero(j);
    DyadicDistance(j * Pow2(k), m, -(k as int));
  }

  lemma CompareGaps(m: nat, k: nat, i: int, j: int)
    ensures Gap(Dyadic(m, -(k as int)), i) <= Gap(Dyadic(m, -(k as int)), j) <==>
        Abs(i * Pow2(k) - m) <= Abs(j * Pow2(k) - m)
  {
    hide Gap, Dyadic, Pow2, Abs;
    GapIs(m, k, i);
    GapIs(m, k, j);
    DyadicCompare(Abs(j * Pow2(k) - m), Abs(i * Pow2(k) - m), -(k as int));
  }

  lemma EvenMeaning(m: nat, k: nat)
    ensures Closest(Dyadic(m, -(k as int)), NearestEven(m, k)) && TieToEven(Dyadic(m, -(k as int)), NearestEven(m, k))
  {
    hide Gap, Dyadic, Pow2, Abs, NearestEven;
    var v, n := Dyadic(m, -(k as int)), NearestEven(m, k);
    forall j: int ensures Gap(v, n) <= Gap(v, j) && (Gap(v, j) == Gap(v, n) && j != n ==> n % 2 == 0) {
      NearestEvenIsNearest(m, k, j);
      CompareGaps(m, k, n, j);
      CompareGaps(m, k, j, n);
    }
  }

  lemma AwayMeaning(m: nat, k: nat)
    ensures Closest(Dyadic(m, -(k as int)), HalfUp(m, k)) && TieAway(Dyadic(m, -(k as int)), HalfUp(m, k))
  {
    hide Gap, Dyadic, Pow2, Abs, HalfUp;
    var v, n := Dyadic(m, -(k as int)), HalfUp(m, k);
    forall j: int ensures Gap(v, n) <= Gap(v, j) && (Gap(v, j) == Gap(v, n) && j != n ==> j < n) {
      HalfUpIsNearest(m, k, j);
      CompareGaps(m, k, n, j);
      CompareGaps(m, k, j, n);
    }
  }

  lemma HalfUpIsNearest(t: nat, k: nat, j: int)
    ensures var n := HalfUp(t, k);
            && Abs(n * Pow2(k) - t) <= Abs(j * Pow2(k) - t)
            && (Abs(n * Pow2(k) - t) == Abs(j * Pow2(k) - t) && j != n ==> j < n)
  {
    var p := Pow2(k);
    hide Pow2, Abs;
    var q, r := t / p, t % p;
    DivNat(t, p);
    DistanceToMultiple(t, p, q, r, j);
    DistanceToMultiple(t, p, q, r, HalfUp(t, k));
  }

  /** A number that is already an integer. */
  lemma IntegerMeaning(v: real, n: int)
    requires v == n as real
    ensures Closest(v, n) && TieToEven(v, n) && TieAway(v, n)
  {
  }

  // ----- the bit patterns of integers

  lemma ClearLow(y: Pattern, k: nat)
    requires k < 64
    ensures AndNot(y, Ones(k)) == y - y % Pow2(k)
  {
    hide Pow2, And, Ones;
    AndOnes(y, k);
  }

  /** Below the binary point of a number with 52 - k integral bits: the sign and
      exponent contribute an even multiple of 2^k, because the bias is odd. */
  lemma Layout(x: Pattern) returns (k: nat, c: nat)
    requires BIAS <= ExpField(x) < BIAS + SHIFT
    ensures k == 1075 - ExpField(x) && 1 <= k <= 52
    ensures Pow2(k) * Pow2(52 - k) == FRAC
    ensures x == (2 * c) * Pow2(k) + Mant(x)
    ensures (2 * c) * Pow2(k) == SignBit(x) * SIGN + (ExpField(x) - 1) * FRAC
  {
    k := 1075 - ExpField(x);
    hide SignBit, ExpField, Magnitude;
    c := EvenPart(SignBit(x), ExpField(x), k);
    DivNat(x, SIGN);
    MagnitudeIs(x);
  }

  lemma MagnitudeIs(x: Pattern)
    ensures x == SignBit(x) * SIGN + ExpField(x) * FRAC + Frac(x)
  {
    DivNat(x, SIGN);
    assert x == SignBit(x) * SIGN + Magnitude(x);
  }

  lemma EvenPart(s: nat, e: nat, k: nat) returns (c: nat)
    requires BIAS <= e && 1 <= k <= 52 && k == 1075 - e
    ensures Pow2(k) * Pow2(52 - k) == FRAC
    ensures (2 * c) * Pow2(k) == s * SIGN + (e - 1) * FRAC
    ensures s * SIGN + (e - 1) * FRAC + FRAC == s * SIGN + e * FRAC
  {
    BaseIs(s, e);
    Pow2Add(k, 52 - k);
    Pow2_52();
    var b := 2048 * s + e - 1;
    if k == 52 {
      PowZero();
      c := 1024 * s + 511;
    } else {
      Pow2Double(52 - k);
      hide *;
      EvenBase(b, Pow2(k), Pow2(51 - k), FRAC);
      c := b * Pow2(51 - k);
    }
  }

  lemma BaseIs(s: nat, e: nat)
    ensures s * SIGN + (e - 1) * FRAC == (2048 * s + e - 1) * FRAC
    ensures e * FRAC == (e - 1) * FRAC + FRAC
  {
  }

  lemma EvenBase(b: nat, p: nat, h: nat, f: nat)
    requires p * (2 * h) == f
    ensures b * h >= 0 && (2 * (b * h)) * p == b * f
  {
    MulMono(0, b, h);
    MulAssoc(b, h, p);
    assert p * (2 * h) == 2 * (h * p);
    assert b * (2 * (h * p)) == 2 * (b * (h * p));
  }

  /** Adding below the binary point and clearing: the result is the integer n, the
      carry running into the exponent if it must. */
  lemma AddAndClear(x: Pattern, k: nat, c: nat, add: nat, n: nat)
    requires BIAS <= ExpField(x) < BIAS + SHIFT && k == 1075 - ExpField(x)
    requires Pow2(k) * Pow2(52 - k) == FRAC
    requires x == (2 * c) * Pow2(k) + Mant(x)
    requires (2 * c) * Pow2(k) == SignBit(x) * SIGN + (ExpField(x) - 1) * FRAC
    requires add < Pow2(k) && n * Pow2(k) <= Mant(x) + add < (n + 1) * Pow2(k)
    ensures x + add < WORD
    ensures AndNot(x + add, Ones(k)) < WORD
    ensures IsIntegral(x, AndNot(x + add, Ones(k)), n)
  {
    hide Dyadic, Value, SignBit, ExpField, Mant, Pow2, AndNot, Ones;
    var p, m := Pow2(k), Mant(x);
    Pow2_52();
    Pow2Mono(k, 52);
    IntegerRange(m, add, n, p, Pow2(52 - k));
    EncodeValue(n * p, -(k as int), SignBit(x));
    assert Encode(n * p, -(k as int)) == (ExpField(x) - 1) * FRAC + n * p;
    ClearLow(x + add, k);
    Collect(2 * c, n, p, m + add - n * p);
    MulMinus(n + 1, n, p);
    DivModUnique(x + add, p, 2 * c + n, m + add - n * p);
    IntegralIs(x, AndNot(x + add, Ones(k)), n, k);
  }

  lemma IntegerRange(m: nat, add: nat, n: nat, p: nat, h: nat)
    requires p * h == FRAC && FRAC <= m < 2 * FRAC && add < p && p <= FRAC
    requires n * p <= m + add < (n + 1) * p
    ensures FRAC <= n * p <= 2 * FRAC
  {
    assert (2 * h + 1) * p == 2 * (p * h) + p;
    if n < h { MulMono(n + 1, h, p); assert false; }
    if n > 2 * h { MulMono(2 * h + 1, n, p); assert false; }
    MulMono(h, n, p);
    MulMono(n, 2 * h, p);
    assert (2 * h) * p == 2 * (p * h);
  }

  lemma IntegralIs(x: Pattern, r: Pattern, n: nat, k: nat)
    requires Finite(r) && SignBit(r) == SignBit(x)
    requires Dyadic(Mant(r), Exp(r)) == Dyadic(n * Pow2(k), -(k as int))
    ensures IsIntegral(x, r, n)
  {
    hide Dyadic, Pow2, SignBit, ExpField, Mant, Exp;
    DyadicShift(n, -(k as int), k);
    DyadicZero(n);
    FiniteIsCandidate(r);
  }

  // ----- small and large operands

  lemma SignOnly(x: Pattern)
    ensures And(x, SIGN) == SignBit(x) * SIGN
    ensures Or(SignBit(x) * SIGN, ONE) == SignBit(x) * SIGN + ONE
  {
    DivNat(x, SIGN);
    hide And, Or;
    SignMask(SignBit(x), x % SIGN);
  }

  lemma SignMask(s: nat, r: nat)
    requires s <= 1 && r < SIGN
    ensures And(s * SIGN + r, SIGN) == s * SIGN
    ensures Or(s * SIGN, ONE) == s * SIGN + ONE
  {
    hide And, Or, ShiftUp, Pow2;
    Pow2_52();
    PowOne();
    AndLow(s, 1);
    ShiftUpIs(s);
    ShiftUpIs(1);
    AndShifted(s, r, 1, 63);
    OrDisjoint(s, ONE, 63);
  }

  lemma ShiftUpIs(s: nat)
    ensures ShiftUp(s, 63) == s * SIGN
  {
    hide *;
    Pow2_52();
  }

  lemma ZeroIntegral(x: Pattern)
    ensures SignBit(x) * SIGN < WORD
    ensures IsIntegral(x, SignBit(x) * SIGN, 0)
  {
    hide Dyadic;
    Fields(SignBit(x) * SIGN, SignBit(x), 0, 0);
    DyadicSign(0, -1074);
  }

  lemma OneIntegral(x: Pattern)
    ensures SignBit(x) * SIGN + ONE < WORD
    ensures IsIntegral(x, SignBit(x) * SIGN + ONE, 1)
  {
    hide Dyadic, Pow2;
    Fields(SignBit(x) * SIGN + ONE, SignBit(x), 1023, 0);
    Pow2_52();
    DyadicShift(1, -52, 52);
    DyadicZero(1);
  }

  /** Magnitudes below one: nothing to the left of the binary point, and the leading
      bit decides how the fraction compares with one half. */
  lemma BelowOne(x: Pattern)
    requires ExpField(x) < BIAS
    ensures Exp(x) < 0 && RAbs(Value(x)) == Dyadic(Mant(x), Exp(x))
    ensures 0.0 <= RAbs(Value(x)) < 1.0
    ensures HalfUp(Mant(x), -Exp(x)) == if ExpField(x) == BIAS - 1 then 1 else 0
    ensures NearestEven(Mant(x), -Exp(x)) == if ExpField(x) == BIAS - 1 && Frac(x) != 0 then 1 else 0
  {
    hide Dyadic, Pow2, HalfUp, NearestEven;
    var m, k := Mant(x), -Exp(x);
    FiniteIsCandidate(x);
    DyadicSign(m, -(k as int));
    Pow2_52();
    if k > 53 { Pow2Mono(54, k); Pow2Double(54); }
    assert m < Pow2(k);
    DyadicShift(1, -(k as int), k);
    DyadicZero(1);
    DyadicCompare(m, Pow2(k), -(k as int));
    ByDivision(m, k, 0, m);
    HalfUpIs(m, k, 0, m);
  }

  lemma HalfUpIs(t: nat, k: nat, q: nat, r: nat)
    requires t == q * Pow2(k) + r && r < Pow2(k)
    ensures HalfUp(t, k) == if 2 * r >= Pow2(k) then q + 1 else q
  {
    hide Pow2;
    DivModUnique(t, Pow2(k), q, r);
  }

  /** From 2^52 on every float64 is an integer. */
  lemma LargeIsInteger(x: Pattern) returns (n: nat)
    requires Finite(x) && ExpField(x) >= BIAS + SHIFT
    ensures RAbs(Value(x)) == n as real && IsIntegral(x, x, n)
  {
    hide Dyadic, Pow2;
    n := ShiftUp(Mant(x), Exp(x));
    DyadicShift(Mant(x), 0, Exp(x));
    DyadicZero(n);
    FiniteIsCandidate(x);
  }

  // ----- the code

  /** Trunc keeps the integral bits. */
  method Trunc(x: Pattern) returns (r: Pattern)
    ensures !Finite(x) ==> r == x
    ensures Finite(x) ==> exists n: nat :: IsIntegral(x, r, n) && n as real <= RAbs(Value(x)) < n as real + 1.0
  {
    hide Dyadic, Value, And, Shl, Shr, Pow2, IsIntegral, ExpField, SignBit, Mant, Exp, Ones;
    SplitFields(x);
    var e := And(Shr(x, 52), 0x7FF);
    if e < BIAS {
      SignOnly(x);
      BelowOne(x);
      ZeroIntegral(x);
      return And(x, SIGN);
    }
    e := Sub(e, BIAS);
    r := x;
    if e < 64 - 12 {
      r := AndNot(r, Ones(64 - 12 - e));
    }
    if e >= SHIFT {
      if Finite(x) { ghost var n := LargeIsInteger(x); }
    } else {
      TruncMiddle(x);
    }
  }

  lemma TruncMiddle(x: Pattern)
    requires BIAS <= ExpField(x) < BIAS + SHIFT
    ensures var r := AndNot(x, Ones(1075 - ExpField(x)));
            exists n: nat :: IsIntegral(x, r, n) && n as real <= RAbs(Value(x)) < n as real + 1.0
  {
    hide Dyadic, Value, And, Pow2, IsIntegral, SignBit, ExpField, Mant, Ones;
    var k, c := Layout(x);
    var m := Mant(x);
    var n, r := Divide(m, k);
    MulMinus(n + 1, n, Pow2(k));
    AddAndClear(x, k, c, 0, n);
    FiniteIsCandidate(x);
    DyadicShift(n, -(k as int), k);
    DyadicShift(n + 1, -(k as int), k);
    DyadicZero(n);
    DyadicZero(n + 1);
    DyadicCompare(m, n * Pow2(k), -(k as int));
    DyadicCompare(m, (n + 1) * Pow2(k), -(k as int));
    assert IsIntegral(x, AndNot(x, Ones(k)), n);
  }

  /** Round: to the nearest integer, halves away from zero. */
  method Round(x: Pattern) returns (r: Pattern)
    ensures !Finite(x) ==> r == x
    ensures Finite(x) ==> exists n: nat ::
              IsIntegral(x, r, n) && Closest(RAbs(Value(x)), n) && TieAway(RAbs(Value(x)), n)
  {
    hide Dyadic, Value, And, Or, Shl, Shr, Pow2, IsIntegral, ExpField, SignBit, Mant, Exp, Closest, TieAway, HalfUp;
    var bits: nat := x;
    SplitFields(x);
    var e := And(Shr(bits, 52), 0x7FF);
    if e < BIAS {
      SignOnly(x);
      BelowOne(x);
      AwayMeaning(Mant(x), -Exp(x));
      ZeroIntegral(x);
      OneIntegral(x);
      bits := And(bits, SIGN);
      if e == BIAS - 1 {
        bits := Or(bits, ONE);
      }
    } else if e < BIAS + SHIFT {
      RoundMiddle(x);
      e := Sub(e, BIAS);
      bits := bits + Shr(FRAC / 2, e);
      bits := AndNot(bits, Shr(FRAC - 1, e));
    } else if Finite(x) {
      ghost var n := LargeIsInteger(x);
      IntegerMeaning(RAbs(Value(x)), n);
    }
    r := bits;
  }

  /** `half >> e` and `fracMask >> e` for e = 52 - k. */
  lemma ShiftedConstants(k: nat)
    requires 1 <= k <= 52
    ensures Shr(FRAC / 2, 52 - k) == Pow2(k - 1)
    ensures Shr(FRAC / 2 - 1, 52 - k) == Pow2(k - 1) - 1
    ensures Shr(FRAC - 1, 52 - k) == Ones(k)
  {
    hide Pow2, Shr, Ones;
    Pow2_52();
    var h := Pow2(52 - k);
    Pow2Double(52);
    Pow2Add(k - 1, 52 - k);
    Pow2Add(k, 52 - k);
    Pow2Mono(0, 52 - k);
    PowZero();
    ShrIs(FRAC / 2, 52 - k, Pow2(k - 1), 0);
    MulMinus(Pow2(k - 1), 1, h);
    ShrIs(FRAC / 2 - 1, 52 - k, Pow2(k - 1) - 1, h - 1);
    MulMinus(Pow2(k), 1, h);
    ShrIs(FRAC - 1, 52 - k, Pow2(k) - 1, h - 1);
    OnesIs(k);
  }

  lemma OnesIs(k: nat)
    requires k < 64
    ensures Ones(k) == Pow2(k) - 1
  {
    hide Pow2;
    OneShl(k);
  }

  lemma RoundMiddle(x: Pattern)
    requires BIAS <= ExpField(x) < BIAS + SHIFT
    ensures var e := ExpField(x) - BIAS;
            && x + Shr(FRAC / 2, e) < WORD
            && var r := AndNot(x + Shr(FRAC / 2, e), Shr(FRAC - 1, e));
            && r < WORD
            && exists n: nat :: IsIntegral(x, r, n) && Closest(RAbs(Value(x)), n) && TieAway(RAbs(Value(x)), n)
  {
    hide Dyadic, Value, And, Pow2, IsIntegral, SignBit, ExpField, Mant, Ones, Shr, HalfUp, Closest, TieAway, AndNot;
    var k, c := Layout(x);
    var m := Mant(x);
    ShiftedConstants(k);
    Pow2Double(k);
    var q, r := Divide(m, k);
    HalfUpIs(m, k, q, r);
    CarryUp(q, r, Pow2(k - 1), Pow2(k));
    AddAndClear(x, k, c, Pow2(k - 1), HalfUp(m, k));
    AwayMeaning(m, k);
    FiniteIsCandidate(x);
  }

  /** RoundToEven: to the nearest integer, halves to the even one. */
  method RoundToEven(x: Pattern) returns (r: Pattern)
    ensures !Finite(x) ==> r == x
    ensures Finite(x) ==> exists n: nat ::
              IsIntegral(x, r, n) && Closest(RAbs(Value(x)), n) && TieToEven(RAbs(Value(x)), n)
  {
    hide Dyadic, Value, And, Or, Shl, Shr, Pow2, IsIntegral, SignBit, Mant, Exp, Closest, TieToEven, NearestEven,
        ExpField, AndNot, Frac;
    var bits: nat := x;
    SplitFields(x);
    var e := And(Shr(bits, 52), 0x7FF);
    if e >= BIAS {
      if e < BIAS + SHIFT {
        EvenMiddle(x);
      } else {
        EvenLarge(x);
      }
      e := Sub(e, BIAS);
      bits := bits + Shr(FRAC / 2 - 1 + And(Shr(bits, Sub(SHIFT, e)), 1), e);
      bits := AndNot(bits, Shr(FRAC - 1, e));
    } else {
      SignOnly(x);
      BelowOne(x);
      EvenMeaning(Mant(x), -Exp(x));
      ZeroIntegral(x);
      OneIntegral(x);
      if e == BIAS - 1 && And(bits, FRAC - 1) != 0 {
        bits := Or(And(bits, SIGN), ONE);
      } else {
        bits := And(bits, SIGN);
      }
    }
    r := bits;
  }

  /** The bit above the binary point is the parity of the integral part. */
  lemma IntegralParity(x: Pattern, k: nat, c: nat, q: nat, r: nat)
    requires 1 <= k <= 52 && x == (2 * c + q) * Pow2(k) + r && r < Pow2(k)
    ensures And(Shr(x, k), 1) == q % 2
  {
    hide And, Shr, Pow2;
    ShrIs(x, k, 2 * c + q, r);
    PowOne();
    AndLow(2 * c + q, 1);
  }

  lemma EvenMiddle(x: Pattern)
    requires BIAS <= ExpField(x) < BIAS + SHIFT
    ensures var e := ExpField(x) - BIAS;
            && Sub(SHIFT, e) == SHIFT - e && Sub(ExpField(x), BIAS) == e
            && var add := Shr(FRAC / 2 - 1 + And(Shr(x, SHIFT - e), 1), e);
            && x + add < WORD
            && var r := AndNot(x + add, Shr(FRAC - 1, e));
            && r < WORD
            && exists n: nat :: IsIntegral(x, r, n) && Closest(RAbs(Value(x)), n) && TieToEven(RAbs(Value(x)), n)
  {
    hide Dyadic, Value, And, Pow2, IsIntegral, SignBit, ExpField, Mant, Ones, Shr, NearestEven, Closest, TieToEven,
        AndNot;
    var k, c := Layout(x);
    var q, r := Divide(Mant(x), k);
    Collect(2 * c, q, Pow2(k), r);
    IntegralParity(x, k, c, q, r);
    ShiftedConstants(k);
    SubWraps(SHIFT, 52 - k);
    SubWraps(ExpField(x), BIAS);
    EvenCarry(x, k, c, q, r);
    EvenMeaning(Mant(x), k);
    FiniteIsCandidate(x);
  }

  lemma EvenCarry(x: Pattern, k: nat, c: nat, q: nat, r: nat)
    requires BIAS <= ExpField(x) < BIAS + SHIFT && k == 1075 - ExpField(x)
    requires Pow2(k) * Pow2(52 - k) == FRAC
    requires x == (2 * c) * Pow2(k) + Mant(x) && Mant(x) == q * Pow2(k) + r && r < Pow2(k)
    requires (2 * c) * Pow2(k) == SignBit(x) * SIGN + (ExpField(x) - 1) * FRAC
    ensures var add := Pow2(k - 1) - 1 + q % 2;
            && x + add < WORD && AndNot(x + add, Ones(k)) < WORD
            && IsIntegral(x, AndNot(x + add, Ones(k)), NearestEven(Mant(x), k))
  {
    hide And, IsIntegral, SignBit, ExpField, Mant, Ones, AndNot, Pow2, NearestEven;
    Pow2Double(k);
    ByDivision(Mant(x), k, q, r);
    CarryEven(q, r, Pow2(k - 1), Pow2(k));
    AddAndClear(x, k, c, Pow2(k - 1) - 1 + q % 2, NearestEven(Mant(x), k));
  }

  /** Adding just under half, or half when q is odd, carries exactly when rounding
      to even goes up. */
  lemma CarryEven(q: nat, r: nat, h: nat, p: nat)
    requires p == 2 * h && r < p
    ensures var n := Settle(q, r, p);
            n * p <= q * p + r + (h - 1 + q % 2) < (n + 1) * p
  {
    NextMultiple(q, p);
  }

  /** Adding half carries exactly when rounding half up goes up. */
  lemma CarryUp(q: nat, r: nat, h: nat, p: nat)
    requires p == 2 * h && r < p
    ensures var n := if 2 * r >= p then q + 1 else q;
            n * p <= q * p + r + h < (n + 1) * p
  {
    NextMultiple(q, p);
  }

  lemma NextMultiple(q: int, p: int)
    ensures (q + 1) * p == q * p + p
    ensures (q + 1 + 1) * p == q * p + 2 * p
  {
  }

  /** With no fraction bits both shifted constants vanish. */
  lemma EvenLarge(x: Pattern)
    requires ExpField(x) >= BIAS + SHIFT
    ensures var e := Sub(ExpField(x), BIAS);
            && Shr(FRAC / 2 - 1 + And(Shr(x, Sub(SHIFT, e)), 1), e) == 0
            && AndNot(x, Shr(FRAC - 1, e)) == x
    ensures Finite(x) ==> exists n: nat ::
              IsIntegral(x, x, n) && Closest(RAbs(Value(x)), n) && TieToEven(RAbs(Value(x)), n)
  {
    hide Dyadic, Value, Pow2, IsIntegral, SignBit, ExpField, Mant, Closest, TieToEven, Shr, And;
    FieldRange(x);
    SubWraps(ExpField(x), BIAS);
    var e := Sub(ExpField(x), BIAS);
    VanishingShift(FRAC / 2 - 1 + And(Shr(x, Sub(SHIFT, e)), 1), e);
    VanishingShift(FRAC - 1, e);
    AndZero(x);
    if Finite(x) {
      var n := LargeIsInteger(x);
      IntegerMeaning(RAbs(Value(x)), n);
    }
  }

  lemma FieldRange(x: Pattern)
    ensures ExpField(x) < 2048 < WORD
  {
  }

  lemma AndZero(x: nat)
    ensures And(x, 0) == 0
  {
  }

  lemma VanishingShift(y: nat, e: nat)
    requires y < FRAC && e >= 52
    ensures Shr(y, e) == 0
  {
    hide Pow2;
    Pow2_52();
    Pow2Mono(52, e);
    if e < 64 { ShrIs(y, e, 0, y); }
  }
}
