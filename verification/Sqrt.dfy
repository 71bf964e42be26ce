/** math/sqrt.go: the square root, one bit at a time, correctly rounded. */
module Sqrt {
  import opened Bits
  import opened Float64
  import opened WidePair

  /** x is the square root of v rounded to 53 bits: v lies strictly on x's side of
      the midpoint between x and any other candidate w, so a tie never arises. */
  ghost predicate NearestRoot(v: real, x: real) {
    forall wm: nat, wq: int {:trigger Candidate(wm, wq)} :: Candidate(wm, wq) ==> OnNearSide(v, x, Dyadic(wm, wq))
  }

  ghost predicate OnNearSide(v: real, x: real, w: real) {
    && (w > x ==> 4.0 * v < (x + w) * (x + w))
    && (w < x ==> (x + w) * (x + w) < 4.0 * v)
  }

  // ----- the digit loop

  /** q holds the bits of the root of n down to weight w; ix is the scaled remainder. */
  ghost predicate Digits(n: int, q: int, w: int, ix: int) {
    && 0 <= q && 1 <= w && 0 <= ix
    && ix * w == 2 * (n - q * q)
    && n < (q + w) * (q + w)
  }

  /** The comparison t <= ix asks whether the next bit r belongs to the root, and
      subtracting t keeps the remainder exact. */
  lemma NextDigit(n: int, q: int, w: int, r: int, ix: int)
    requires Digits(n, q, w, ix) && w == 2 * r && r >= 1
    ensures 2 * q + r <= ix <==> (q + r) * (q + r) <= n
    ensures 2 * q + r <= ix ==> Digits(n, q + r, r, 2 * (ix - (2 * q + r)))
    ensures 2 * q + r > ix ==> Digits(n, q, r, 2 * ix)
  {
    var t := 2 * q + r;
    Halve(ix, r, n - q * q);
    SquareSum(q, r);
    SquareSum(q + r, r);
    if t <= ix {
      MulMono(t, ix, r);
      TimesMinus(ix, t, r);
      assert (2 * (ix - t)) * r == 2 * ((ix - t) * r);
    } else {
      MulStrict(ix, t, r);
      assert (2 * ix) * r == 2 * (ix * r);
    }
    assert (q + w) == (q + r) + r;
  }

  lemma Halve(ix: int, r: int, d: int)
    requires ix * (2 * r) == 2 * d
    ensures ix * r == d
  {
    assert ix * (2 * r) == 2 * (ix * r);
  }

  lemma SquareSum(q: int, r: int)
    ensures (q + r) * (q + r) == q * q + (2 * q + r) * r
  {
  }

  lemma TimesMinus(a: int, b: int, c: int)
    ensures (a - b) * c == a * c - b * c
  {
  }

  /** The remainder stays well inside a word. */
  lemma RemainderBound(n: int, q: int, w: int, ix: int)
    requires Digits(n, q, w, ix)
    ensures ix < 4 * q + 2 * w
  {
    SquareSum(q, w);
    var b := 4 * q + 2 * w;
    assert b * w == 2 * ((2 * q + w) * w);
    if ix >= b { MulMono(b, ix, w); }
  }

  // ----- the final rounding

  /** The integer square root of a 108-bit radicand: 54 bits, even when exact, and
      never so large that rounding it up would carry out. */
  lemma RootFacts(y: nat, n: nat, q: nat)
    requires 2 * FRAC <= y <= 8 * FRAC - 4 && n == y * (2 * FRAC)
    requires q * q <= n < (q + 1) * (q + 1)
    ensures 2 * FRAC <= q <= 4 * FRAC - 2
    ensures q * q == n ==> q % 2 == 0
  {
    if q < 2 * FRAC {
      ProductOrder(q + 1, 2 * FRAC);
      MulMono(2 * FRAC, y, 2 * FRAC);
      assert false;
    }
    if q > 4 * FRAC - 2 {
      ProductOrder(4 * FRAC - 1, q);
      MulMono(y, 8 * FRAC - 4, 2 * FRAC);
      Extreme();
      assert false;
    }
    if q % 2 == 1 {
      var h := q / 2;
      assert q * q == 2 * (2 * h * h + 2 * h) + 1 by { OddSquare(h); }
      assert n == 2 * (y * FRAC) by { TwiceTimes(y, FRAC); }
    }
  }

  lemma Extreme()
    ensures (8 * FRAC - 4) * (2 * FRAC) < (4 * FRAC - 1) * (4 * FRAC - 1)
  {
  }

  lemma TwiceTimes(a: int, b: int)
    ensures a * (2 * b) == 2 * (a * b)
  {
  }

  lemma OddSquare(h: int)
    ensures (2 * h + 1) * (2 * h + 1) == 2 * (2 * h * h + 2 * h) + 1
  {
  }

  lemma ProductOrder(a: nat, b: nat)
    requires a <= b
    ensures a * a <= b * b
  {
    MulMono(a, b, a);
    MulMono(a, b, b);
  }

  lemma SquareStrict(a: nat, b: nat)
    requires a < b
    ensures a * a < b * b
  {
    MulMono(a, b, a);
    MulStrict(a, b, b);
  }

  /** Rounding by the extra bit and the remainder: k = root / 2 lies within half a
      unit, strictly. */
  lemma HalfRoot(n: nat, q: nat, q1: nat, k: nat)
    requires q * q <= n < (q + 1) * (q + 1)
    requires q * q == n ==> q % 2 == 0
    requires q1 == if n != q * q then q + q % 2 else q
    requires k == q1 / 2
    ensures 2 * k == q1
    ensures 1 <= k ==> (2 * k - 1) * (2 * k - 1) < n
    ensures n < (2 * k + 1) * (2 * k + 1)
    ensures q % 2 == 0 ==> (2 * k) * (2 * k) <= n
  {
    if q % 2 == 0 {
      if q >= 1 { SquareStrict(q - 1, q); }
    } else {
      SquareStrict(q + 1, q + 2);
    }
  }

  // ----- values

  lemma RealSquares(a: real, b: real)
    requires 0.0 <= a <= b
    ensures a * a <= b * b
    ensures a < b ==> a * a < b * b
  {
    assert b * b - a * a == (b - a) * (b + a);
    if a < b { Positive(b - a, b + a); }
  }

  lemma Positive(d: real, c: real)
    requires 0.0 < d && 0.0 < c
    ensures d * c > 0.0
  {
  }

  lemma SquareValue(m: int, e: int)
    ensures Dyadic(m, e) * Dyadic(m, e) == Dyadic(m * m, 2 * e)
  {
    hide *;
    DyadicProduct(m, e, m, e);
  }

  lemma FourTimes(n: int, e: int)
    ensures Dyadic(n, e + 2) == 4.0 * Dyadic(n, e)
  {
    hide *;
    DyadicStep(n, e);
    DyadicStep(n, e + 1);
    assert e + 1 + 1 == e + 2;
  }

  lemma RootIsNearest(n: nat, k: nat, e: int, v: real)
    requires FRAC <= k < 2 * FRAC && v == Dyadic(n, 2 * e - 106)
    requires (2 * k - 1) * (2 * k - 1) < n < (2 * k + 1) * (2 * k + 1)
    requires k == FRAC ==> (2 * k) * (2 * k) <= n
    ensures NearestRoot(v, Dyadic(k, e - 52))
  {
    hide Dyadic, OnNearSide;
    forall wm: nat, wq: int | Candidate(wm, wq) ensures OnNearSide(v, Dyadic(k, e - 52), Dyadic(wm, wq)) {
      CandidateSide(n, k, e, v, wm, wq);
    }
  }

  lemma CandidateSide(n: nat, k: nat, e: int, v: real, wm: nat, wq: int)
    requires FRAC <= k < 2 * FRAC && v == Dyadic(n, 2 * e - 106)
    requires (2 * k - 1) * (2 * k - 1) < n < (2 * k + 1) * (2 * k + 1)
    requires k == FRAC ==> (2 * k) * (2 * k) <= n
    requires Candidate(wm, wq)
    ensures OnNearSide(v, Dyadic(k, e - 52), Dyadic(wm, wq))
  {
    hide Dyadic, OnNearSide;
    var u := e - 52;
    var x, w := Dyadic(k, u), Dyadic(wm, wq);
    DyadicSign(wm, wq);
    DyadicSign(k, u);
    if w > x {
      Neighbour(k, u, wm, wq);
      DyadicSum(k, k + 1, u);
      Beyond(n, 2 * k + 1, u, v, x + w);
    } else if w < x {
      if k == FRAC {
        DyadicSum(k, k, u);
        Within(n, 2 * k, u, v, x + w);
      } else {
        Neighbour(k, u, wm, wq);
        DyadicSum(k, k - 1, u);
        Within(n, 2 * k - 1, u, v, x + w);
      }
    }
    NearSideIs(v, x, w);
  }

  lemma NearSideIs(v: real, x: real, w: real)
    ensures OnNearSide(v, x, w) <==>
      && (w > x ==> 4.0 * v < (x + w) * (x + w))
      && (w < x ==> (x + w) * (x + w) < 4.0 * v)
  {
  }

  /** No candidate lies strictly between consecutive full significands. */
  lemma Neighbour(k: nat, u: int, wm: nat, wq: int)
    requires FRAC <= k && wm < 2 * FRAC
    ensures Dyadic(wm, wq) > Dyadic(k, u) ==> Dyadic(wm, wq) >= Dyadic(k + 1, u)
    ensures k > FRAC && Dyadic(wm, wq) < Dyadic(k, u) ==> Dyadic(wm, wq) <= Dyadic(k - 1, u)
  {
    hide Dyadic, Pow2;
    if wq >= u {
      var j := wm * Pow2(wq - u);
      DyadicShift(wm, u, wq - u);
      DyadicCompare(j, k + 1, u);
      DyadicCompare(j, k, u);
      DyadicCompare(k, j, u);
      DyadicCompare(k - 1, j, u);
    } else {
      BelowFull(wm, wq, u);
      DyadicCompare(k, FRAC, u);
      DyadicCompare(k - 1, FRAC, u);
    }
  }

  lemma Beyond(n: nat, m: nat, u: int, v: real, s: real)
    requires v == Dyadic(n, 2 * u - 2) && n < m * m && s >= Dyadic(m, u)
    ensures 4.0 * v < s * s
  {
    hide *;
    FourTimes(n, 2 * u - 2);
    assert 2 * u - 2 + 2 == 2 * u;
    DyadicCompare(n, m * m, 2 * u);
    SquareValue(m, u);
    DyadicSign(m, u);
    RealSquares(Dyadic(m, u), s);
  }

  lemma Within(n: nat, m: nat, u: int, v: real, s: real)
    requires v == Dyadic(n, 2 * u - 2) && 0.0 <= s <= Dyadic(m, u)
    requires m * m <= n && (s < Dyadic(m, u) || m * m < n)
    ensures s * s < 4.0 * v
  {
    hide *;
    FourTimes(n, 2 * u - 2);
    DyadicCompare(m * m, n, 2 * u);
    SquareValue(m, u);
    RealSquares(s, Dyadic(m, u));
  }

  // ----- the method

  lemma Doubles(ix: nat)
    requires ix < SIGN
    ensures Shl(ix, 1) == 2 * ix
  {
    assert Pow2(1) == 2;
  }

  /** Testing the implicit bit of a significand. */
  lemma ImplicitBit(f: nat)
    requires f < 2 * FRAC
    ensures And(f, Shl(1, 52)) == 0 <==> f < FRAC
  {
    OneShl(52);
    Pow2_52();
    hide Pow2, Shl;
    AndPower(f, 52);
  }

  lemma {:induction false} AndPower(x: nat, n: nat)
    requires x < 2 * Pow2(n)
    ensures And(x, Pow2(n)) == if x < Pow2(n) then 0 else Pow2(n)
  {
    if n == 0 {
      assert And(1, 1) == 1;
    } else if x > 0 {
      AndPower(x / 2, n - 1);
      AndHalves(x, Pow2(n));
    }
  }

  /** `ix &^= mask << shift` then `ix |= 1 << shift` */
  function Significand(ix: nat): nat {
    Or(AndNot(ix, Shl(0x7FF, 52)), Shl(1, 52))
  }

  lemma SignificandIs(ix: nat)
    requires ix < SIGN
    ensures Significand(ix) == FRAC + ix % FRAC
  {
    hide And, Or, Shl, Pow2;
    hide ShiftUp;
    Pow2_52();
    OneShl(52);
    ShlIs(0x7FF, 52, 0, 0x7FF * FRAC);
    var q, f := ix / FRAC, ix % FRAC;
    AndShifted(q, f, 0x7FF, 52);
    AndLow(q, 11);
    assert q % 2048 == q;
    OrDisjoint(1, f, 52);
  }

  /** The invariant of the digit loop: w = 2^j is the weight of the last digit done
      and r that of the next one, zero when none is left. */
  ghost predicate Loop(n: nat, q: nat, s: nat, r: nat, ix: nat, j: nat) {
    && Digits(n, q, Pow2(j), ix)
    && s == 2 * q && q + Pow2(j) <= 4 * FRAC
    && r == Pow2(j) / 2
  }

  /** One pass of the digit loop. */
  lemma DigitStep(n: nat, q: nat, s: nat, r: nat, ix: nat, j: nat)
    requires Loop(n, q, s, r, ix, j) && r != 0
    ensures j > 0
    ensures if s + r <= ix
            then Loop(n, q + r, s + r + r, Shr(r, 1), Shl(ix - (s + r), 1), j - 1)
            else Loop(n, q, s, Shr(r, 1), Shl(ix, 1), j - 1)
  {
    PowerHalf(j);
    HalfIs(r);
    hide Digits, Shl, Shr, Pow2;
    NextDigit(n, q, Pow2(j), r, ix);
    RemainderBound(n, q, Pow2(j), ix);
    Doubles(ix);
    if s + r <= ix { Doubles(ix - (s + r)); }
  }

  /** The 54 digits of the root of y * 2^53. */
  method Root(y: nat) returns (q: nat, rem: nat)
    requires 2 * FRAC <= y <= 8 * FRAC - 4
    ensures q * q <= y * (2 * FRAC) < (q + 1) * (q + 1)
    ensures rem == 0 <==> q * q == y * (2 * FRAC)
  {
    hide Loop, Shl, Shr, Digits;
    var ix: nat, s: nat, r: nat := y, 0, 2 * FRAC;
    q := 0;
    ghost var j: nat := 54;
    StartDigits(y);
    while r != 0
      invariant Loop(y * (2 * FRAC), q, s, r, ix, j)
      decreases j
    {
      DigitStep(y * (2 * FRAC), q, s, r, ix, j);
      var t := s + r;
      if t <= ix {
        s := t + r;
        ix := ix - t;
        q := q + r;
      }
      ix := Shl(ix, 1);
      r := Shr(r, 1);
      j := j - 1;
    }
    LastDigits(y * (2 * FRAC), q, s, ix, j);
    rem := ix;
  }

  lemma HalfIs(r: nat)
    ensures Shr(r, 1) == r / 2
  {
    assert Pow2(1) == 2;
  }

  lemma PowerHalf(j: nat)
    ensures Pow2(j) / 2 == 0 <==> j == 0
    ensures j > 0 ==> Pow2(j) == 2 * (Pow2(j) / 2) && Pow2(j) / 2 == Pow2(j - 1)
  {
  }

  lemma StartDigits(y: nat)
    requires 2 * FRAC <= y < 8 * FRAC
    ensures y * (2 * FRAC) >= 0
    ensures Loop(y * (2 * FRAC), 0, 0, 2 * FRAC, y, 54)
  {
    Pow2_52();
    Pow2Double(54);
    hide Pow2;
    MulMono(0, y, 2 * FRAC);
    MulStrict(y, 8 * FRAC, 2 * FRAC);
    assert y * (4 * FRAC) == 2 * (y * (2 * FRAC));
  }

  lemma LastDigits(n: nat, q: nat, s: nat, ix: nat, j: nat)
    requires Loop(n, q, s, 0, ix, j)
    ensures q * q <= n < (q + 1) * (q + 1)
    ensures ix == 0 <==> q * q == n
  {
    PowerHalf(j);
    PowZero();
  }

  lemma PositiveFields(x: Pattern)
    requires SignBit(x) == 0
    ensures x == ExpField(x) * FRAC + Frac(x) < SIGN && Frac(x) < FRAC && ExpField(x) < 2048
    ensures x % FRAC == Frac(x)
  {
    assert x == Magnitude(x);
  }

  lemma DyadicDouble(m: int, e: int)
    ensures Dyadic(2 * m, e) == Dyadic(m, e + 1)
  {
    hide Dyadic;
    DyadicShift(m, e, 1);
    assert Pow2(1) == 2;
  }

  /** Scaling a subnormal significand up until its leading bit is bit 52. */
  method Normalise(f: nat) returns (ix: nat, exp: int)
    requires 0 < f < FRAC
    ensures FRAC <= ix < 2 * FRAC && -51 <= exp <= 1
    ensures Dyadic(ix, exp - 1075) == Dyadic(f, -1074)
  {
    hide Dyadic, And, Shl, Pow2;
    ix, exp := f, 0;
    PowZero();
    ImplicitBit(ix);
    while And(ix, Shl(1, 52)) == 0
      invariant 0 < ix < 2 * FRAC && exp <= 0 && Pow2(-exp) <= ix
      invariant Dyadic(ix, exp - 1074) == Dyadic(f, -1074)
      invariant And(ix, Shl(1, 52)) == 0 <==> ix < FRAC
      decreases 2 * FRAC - ix
    {
      Doubles(ix);
      DyadicDouble(ix, exp - 1075);
      Pow2Double(1 - exp);
      ix := Shl(ix, 1);
      exp := exp - 1;
      ImplicitBit(ix);
    }
    Pow2_52();
    if -exp > 52 { Pow2Mono(53, -exp); assert false; }
    exp := exp + 1;
  }

  /** sqrt: special operands as they are, NaN for a negative one, and otherwise the
      correctly rounded square root. */
  method Sqrt(x: Pattern) returns (r: Pattern)
    ensures IsZero(x) || IsNaN(x) || (IsInf(x) && SignBit(x) == 0) ==> r == x
    ensures !IsZero(x) && !IsNaN(x) && SignBit(x) == 1 ==> r == NAN
    ensures !IsZero(x) && Finite(x) && SignBit(x) == 0 ==>
              Finite(r) && SignBit(r) == 0 && NearestRoot(Value(x), Value(r))
  {
    hide NearestRoot, Value, SignBit, ExpField, Frac;
    if IsZero(x) || IsNaN(x) || (IsInf(x) && SignBit(x) == 0) { return x; }
    if SignBit(x) == 1 { return NAN; }
    r := SqrtPositive(x);
  }

  method SqrtPositive(x: Pattern) returns (r: Pattern)
    requires !IsZero(x) && Finite(x) && SignBit(x) == 0
    ensures Finite(r) && SignBit(r) == 0 && NearestRoot(Value(x), Value(r))
  {
    hide Dyadic, NearestRoot, Mant, Exp, And, Shl, Shr, Pow2, Significand, SignBit, ExpField, Frac, Value;
    PositiveFields(x);
    SplitFields(x);
    // normalise x
    var ix: nat, exp: int := x, And(Shr(x, 52), 0x7FF);
    if exp == 0 {
      ix, exp := Normalise(ix);
    }
    SignificandIs(ix);
    NormalisedValue(x, ix, exp);
    exp := exp - BIAS;
    ix := Significand(ix);
    ScaleRadicand(x, ix, exp);
    if exp % 2 == 1 {
      ix := Shl(ix, 1);
    }
    exp := exp / 2;
    ix := Shl(ix, 1);
    var q, rem := Root(ix);
    ghost var q0 := q;
    if rem != 0 {
      BitZero(q);
      q := q + And(q, 1);
    }
    Assemble(x, ix, exp, q0, q);
    r := Shr(q, 1) + Shl(exp - 1 + BIAS, 52);
  }

  /** An even exponent and one more factor of two. */
  lemma ScaleRadicand(x: Pattern, ix: nat, exp: int)
    requires FRAC <= ix < 2 * FRAC && Finite(x) && Value(x) == Dyadic(ix, exp - 52)
    ensures var y := Shl(if exp % 2 == 1 then Shl(ix, 1) else ix, 1);
            2 * FRAC <= y <= 8 * FRAC - 4 && Value(x) == Dyadic(y, 2 * (exp / 2) - 53)
  {
    hide Dyadic, Shl, Value;
    Doubles(ix);
    Doubles(2 * ix);
    DyadicDouble(ix, exp - 53);
    DyadicDouble(2 * ix, exp - 54);
  }

  lemma BitZero(q: nat)
    ensures And(q, 1) == q % 2
  {
    assert Pow2(1) == 2;
    AndLow(q, 1);
  }

  lemma NormalisedValue(x: Pattern, ix: nat, exp: int)
    requires SignBit(x) == 0 && Finite(x) && !IsZero(x)
    requires if ExpField(x) == 0
             then FRAC <= ix < 2 * FRAC && Dyadic(ix, exp - 1075) == Dyadic(Frac(x), -1074)
             else ix == x && exp == ExpField(x)
    ensures Value(x) == Dyadic(FRAC + ix % FRAC, exp - 1075)
  {
    hide Dyadic;
    PositiveFields(x);
  }

  /** The rounded root as a bit pattern. */
  lemma Assemble(x: Pattern, y: nat, exp: int, q0: nat, q: nat)
    requires SignBit(x) == 0 && Finite(x) && 2 * FRAC <= y <= 8 * FRAC - 4
    requires Value(x) == Dyadic(y, 2 * exp - 53) && -600 <= exp <= 600
    requires q0 * q0 <= y * (2 * FRAC) < (q0 + 1) * (q0 + 1)
    requires q == if q0 * q0 != y * (2 * FRAC) then q0 + q0 % 2 else q0
    ensures var r := Shr(q, 1) + Shl(exp - 1 + BIAS, 52);
            r < WORD && Finite(r) && SignBit(r) == 0 && NearestRoot(Value(x), Value(r))
  {
    hide Dyadic, NearestRoot, Mant, Exp, Shl, Shr, Pow2, SignBit, ExpField, Frac, Value;
    var n, k := y * (2 * FRAC), q / 2;
    RootFacts(y, n, q0);
    HalfRoot(n, q0, q, k);
    HalfIs(q);
    Pow2_52();
    ShlIs(exp - 1 + BIAS, 52, 0, (exp - 1 + BIAS) * FRAC);
    EncodeValue(k, exp - 52, 0);
    DyadicShift(y, 2 * exp - 106, 53);
    assert y * Pow2(53) == n;
    RootIsNearest(n, k, exp, Value(x));
  }
}
