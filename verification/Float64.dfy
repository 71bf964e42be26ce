/** The IEEE 754 binary64 format as bit patterns (sections 3.4 and 4.3.1 of
    IEEE 754-2008): the value of a pattern, and correct rounding to nearest. */
module Float64 {
  import opened Bits
  import opened Rounding

  const FRAC: nat := 0x10_0000_0000_0000          // 1 << shift
  const SIGN: nat := 0x8000_0000_0000_0000        // 1 << 63
  const INF: nat := 0x7FF0_0000_0000_0000         // uvinf
  const NAN: nat := 0x7FF8_0000_0000_0001         // uvnan
  const BIAS: int := 1023
  const SHIFT: nat := 52

  type Pattern = b: nat | b < WORD

  function SignBit(b: Pattern): (s: nat)
    ensures s <= 1
  {
    b / SIGN
  }

  function ExpField(b: Pattern): nat { (b / FRAC) % 2048 }

  function Frac(b: Pattern): nat { b % FRAC }

  /** The bits without the sign. */
  function Magnitude(b: Pattern): (m: nat)
    ensures m == ExpField(b) * FRAC + Frac(b)
  {
    assert b / FRAC / 2048 == b / SIGN;
    b % SIGN
  }

  predicate Finite(b: Pattern) { ExpField(b) != 2047 }

  predicate IsNaN(b: Pattern) { ExpField(b) == 2047 && Frac(b) != 0 }

  predicate IsInf(b: Pattern) { ExpField(b) == 2047 && Frac(b) == 0 }

  predicate IsZero(b: Pattern) { ExpField(b) == 0 && Frac(b) == 0 }

  /** The significand, with the implicit bit of a normal number. */
  function Mant(b: Pattern): (m: nat)
    ensures m < 2 * FRAC
    ensures ExpField(b) > 0 ==> FRAC <= m
  {
    if ExpField(b) == 0 then Frac(b) else FRAC + Frac(b)
  }

  /** The exponent of the last significand bit. */
  function Exp(b: Pattern): (e: int)
    ensures e >= -1074
  {
    (if ExpField(b) == 0 then 1 else ExpField(b)) - 1075
  }

  // ----- extracting the fields

  lemma Pow2_52()
    ensures Pow2(52) == FRAC && Pow2(53) == 2 * FRAC && Pow2(11) == 2048
    ensures Pow2(63) == SIGN
  {
    var e := 13;
    assert Pow2(11) == 2048;
    assert Pow2(13) == 8192;
    Pow2Add(e, e);
    assert Pow2(2 * e) == 0x400_0000;
    Pow2Add(2 * e, 2 * e);
    hide Pow2;
    Pow2Double(53);
    Pow2Double(64);
    Pow2_64();
  }

  /** The fields as the code extracts them. */
  lemma SplitFields(b: Pattern)
    ensures And(Shr(b, 52), 0x7FF) == ExpField(b)
    ensures And(b, FRAC - 1) == Frac(b)
    ensures Shr(b, 63) == SignBit(b)
  {
    Pow2_52();
    hide Pow2, And;
    AndLow(b, 52);
    assert Shr(b, 52) == b / FRAC;
    AndLow(b / FRAC, 11);
  }

  // ----- dyadic rationals

  /** The real number m * 2^e. */
  ghost function Dyadic(m: int, e: int): real
    decreases if e < 0 then -e else e
  {
    if e == 0 then m as real
    else if e > 0 then 2.0 * Dyadic(m, e - 1)
    else Dyadic(m, e + 1) / 2.0
  }

  lemma DyadicStep(m: int, e: int)
    ensures Dyadic(m, e + 1) == 2.0 * Dyadic(m, e)
  {
  }

  lemma {:induction false} DyadicSum(a: int, b: int, e: int)
    ensures Dyadic(a + b, e) == Dyadic(a, e) + Dyadic(b, e)
    decreases if e < 0 then -e else e
  {
    if e > 0 {
      DyadicSum(a, b, e - 1);
    } else if e < 0 {
      DyadicSum(a, b, e + 1);
    }
  }

  lemma {:induction false} DyadicSign(m: int, e: int)
    ensures m > 0 <==> Dyadic(m, e) > 0.0
    ensures m == 0 <==> Dyadic(m, e) == 0.0
    decreases if e < 0 then -e else e
  {
    if e > 0 {
      DyadicSign(m, e - 1);
    } else if e < 0 {
      DyadicSign(m, e + 1);
    }
  }

  lemma DyadicDouble(m: int, e: int)
    ensures Dyadic(2 * m, e) == Dyadic(m, e + 1)
  {
    hide Dyadic;
    DyadicSum(m, m, e);
    DyadicStep(m, e);
  }

  lemma DoubleProduct(m: int, h: int)
    ensures m * (2 * h) == 2 * (m * h) && m * 1 == m
  {
  }

  lemma {:induction false} DyadicShift(m: int, e: int, n: nat)
    ensures Dyadic(m * Pow2(n), e) == Dyadic(m, e + n)
    decreases n
  {
    hide Dyadic;
    if n == 0 {
      DoubleProduct(m, 1);
    } else {
      hide Pow2;
      Pow2Double(n);
      DoubleProduct(m, Pow2(n - 1));
      DyadicDouble(m * Pow2(n - 1), e);
      DyadicShift(m, e + 1, n - 1);
    }
  }

  lemma DyadicCompare(a: int, b: int, e: int)
    ensures a < b <==> Dyadic(a, e) < Dyadic(b, e)
    ensures a == b <==> Dyadic(a, e) == Dyadic(b, e)
    ensures Dyadic(b - a, e) == Dyadic(b, e) - Dyadic(a, e)
  {
    DyadicSum(a, b - a, e);
    DyadicSign(b - a, e);
  }

  /** Multiplying significands and adding exponents multiplies the numbers. */
  lemma DyadicProduct(a: int, e: int, b: int, f: int)
    ensures Dyadic(a, e) * Dyadic(b, f) == Dyadic(a * b, e + f)
  {
    hide *;
    ScaledInteger(a, b);
    ScaledBy(a as real, b, f, a * b, 0);
    Commute(a as real, Dyadic(b, f), Dyadic(a * b, f));
    ScaledBy(Dyadic(b, f), a, e, a * b, f);
    Commute(Dyadic(b, f), Dyadic(a, e), Dyadic(a * b, e + f));
  }

  lemma {:induction false} ScaledBy(y: real, a: int, e: int, c: int, f: int)
    requires y * a as real == Dyadic(c, f)
    ensures y * Dyadic(a, e) == Dyadic(c, e + f)
    decreases if e < 0 then -e else e
  {
    hide *;
    DyadicZero(a);
    if e > 0 {
      ScaledBy(y, a, e - 1, c, f);
      DyadicStep(a, e - 1);
      DyadicStep(c, e - 1 + f);
      Doubled(Dyadic(a, e - 1), y);
    } else if e < 0 {
      ScaledBy(y, a, e + 1, c, f);
      DyadicStep(a, e);
      DyadicStep(c, e + f);
      Doubled(Dyadic(a, e), y);
    }
  }

  lemma DyadicZero(a: int)
    ensures Dyadic(a, 0) == a as real
  {
  }

  lemma ScaledInteger(a: int, b: int)
    ensures a as real * b as real == Dyadic(a * b, 0)
  {
    assert Dyadic(a * b, 0) == (a * b) as real;
  }

  lemma Commute(x: real, y: real, z: real)
    requires x * y == z
    ensures y * x == z
  {
  }

  lemma Doubled(x: real, y: real)
    ensures (2.0 * x) * y == 2.0 * (x * y)
    ensures y * (2.0 * x) == 2.0 * (y * x)
  {
  }

  // ----- values

  ghost function Value(b: Pattern): real
    requires Finite(b)
  {
    var v := Dyadic(Mant(b), Exp(b));
    if SignBit(b) == 1 then -v else v
  }

  ghost function RAbs(x: real): real { if x < 0.0 then -x else x }

  /** m * 2^q is v >= 0 rounded to 53 bits, the exponent bounded only from below:
      no other 53-bit significand at any exponent comes closer, and the last bit
      settles a tie. */
  ghost predicate NearestTo(v: real, m: nat, q: int) {
    && q >= -1074
    && m <= 2 * FRAC
    && (q > -1074 ==> FRAC <= m)
    && forall wm: nat, wq: int {:trigger Candidate(wm, wq)} :: Candidate(wm, wq) ==>
        AtLeastAsNear(v, m, q, Dyadic(wm, wq))
  }

  predicate Candidate(wm: nat, wq: int) {
    wm < 2 * FRAC && wq >= -1074
  }

  ghost predicate AtLeastAsNear(v: real, m: nat, q: int, w: real) {
    var x := Dyadic(m, q);
    && RAbs(x - v) <= RAbs(w - v)
    && (RAbs(x - v) == RAbs(w - v) && x != w ==> m % 2 == 0)
  }

  /** The pattern of m * 2^q: adding m lets its implicit bit run into the exponent. */
  function Encode(m: nat, q: int): nat
    requires q >= -1074
  {
    (q + 1074) * FRAC + m
  }

  /** r is the correctly rounded v: section 4.3.1 of IEEE 754-2008, with a result
      too large for the format replaced by infinity (section 7.4). */
  ghost predicate RoundedTo(v: real, r: Pattern) {
    exists m: nat, q: int {:trigger NearestTo(RAbs(v), m, q)} ::
      && NearestTo(RAbs(v), m, q)
      && r == (if v < 0.0 then SIGN else 0) + (if Encode(m, q) >= INF then INF else Encode(m, q))
  }

  // ----- decoding

  /** Reading back an encoded significand gives the number that was encoded. */
  lemma EncodeValue(m: nat, q: int, s: nat)
    requires s <= 1
    requires q >= -1074 && m <= 2 * FRAC && (q > -1074 ==> FRAC <= m)
    requires Encode(m, q) < INF
    ensures s * SIGN + Encode(m, q) < WORD
    ensures var b := s * SIGN + Encode(m, q);
            && Finite(b) && SignBit(b) == s && Mant(b) % 2 == m % 2
            && Dyadic(Mant(b), Exp(b)) == Dyadic(m, q)
            && Value(b) == if s == 1 then -Dyadic(m, q) else Dyadic(m, q)
  {
    hide Dyadic, Pow2, SignBit, ExpField, Frac;
    var b := s * SIGN + Encode(m, q);
    var e := q + 1074;
    if m == 2 * FRAC {
      Fields(b, s, e + 2, 0);
      DyadicCarry(q);
    } else if m >= FRAC {
      Fields(b, s, e + 1, m - FRAC);
    } else {
      Fields(b, s, 0, m);
    }
  }

  lemma DyadicCarry(q: int)
    ensures Dyadic(FRAC, q + 1) == Dyadic(2 * FRAC, q)
  {
    hide Dyadic;
    assert Pow2(1) == 2;
    DyadicShift(FRAC, q, 1);
  }

  /** The three fields of a pattern. */
  lemma Fields(b: nat, s: nat, e: nat, f: nat)
    requires s <= 1 && e < 2048 && f < FRAC
    requires b == s * SIGN + e * FRAC + f
    ensures b < WORD
    ensures SignBit(b) == s && ExpField(b) == e && Frac(b) == f
  {
    assert b / FRAC == s * 2048 + e;
  }

  /** Every finite pattern competes in NearestTo. */
  lemma FiniteIsCandidate(b: Pattern)
    requires Finite(b)
    ensures Candidate(Mant(b), Exp(b))
    ensures RAbs(Value(b)) == Dyadic(Mant(b), Exp(b))
  {
    DyadicSign(Mant(b), Exp(b));
  }

  /** A finite correctly rounded result is at least as close as any other finite
      float64, and on a tie its last bit is zero. */
  lemma RoundedIsNearest(v: real, r: Pattern, w: Pattern)
    requires RoundedTo(v, r) && Finite(r) && Finite(w)
    ensures RAbs(Value(r) - v) <= RAbs(Value(w) - v)
    ensures RAbs(Value(r) - v) == RAbs(Value(w) - v) && Value(r) != Value(w) ==> Mant(r) % 2 == 0
  {
    var m: nat, q: int :|
      && NearestTo(RAbs(v), m, q)
      && r == (if v < 0.0 then SIGN else 0) + (if Encode(m, q) >= INF then INF else Encode(m, q));
    var s := if v < 0.0 then 1 else 0;
    if Encode(m, q) >= INF {
      Fields(r, s, 2047, 0);
      assert false;
    }
    EncodeValue(m, q, s);
    SignedNearest(v, m, q, w);
  }

  lemma SignedNearest(v: real, m: nat, q: int, w: Pattern)
    requires NearestTo(RAbs(v), m, q) && Finite(w)
    ensures var r := if v < 0.0 then -Dyadic(m, q) else Dyadic(m, q);
            && RAbs(r - v) <= RAbs(Value(w) - v)
            && (RAbs(r - v) == RAbs(Value(w) - v) && r != Value(w) ==> m % 2 == 0)
  {
    hide Dyadic;
    FiniteIsCandidate(w);
    assert Candidate(0, -1074);
    assert AtLeastAsNear(RAbs(v), m, q, RAbs(Value(w)));
    assert AtLeastAsNear(RAbs(v), m, q, Dyadic(0, -1074));
    DyadicSign(0, -1074);
    DyadicSign(m, q);
    SignedDistance(v, Dyadic(m, q), Value(w));
  }

  /** Comparing distances of absolute values is enough when x takes the sign of v. */
  lemma SignedDistance(v: real, x: real, w: real)
    requires x >= 0.0
    ensures var r := if v < 0.0 then -x else x;
            && RAbs(r - v) == RAbs(x - RAbs(v))
            && RAbs(RAbs(w) - RAbs(v)) <= RAbs(w - v)
            && (RAbs(r - v) == RAbs(w - v) && r != w && RAbs(x - RAbs(v)) <= RAbs(v)
                && RAbs(x - RAbs(v)) <= RAbs(RAbs(w) - RAbs(v)) ==>
                  x != RAbs(w) && RAbs(x - RAbs(v)) == RAbs(RAbs(w) - RAbs(v)))
  {
  }

  // ----- from integer rounding to correct rounding

  /** Rounding the exact integer t, in units of 2^u, at bit k is correct rounding
      of t * 2^u, provided the rounded significand is full or the exponent is the
      least one. */
  lemma IntegerRounding(t: nat, u: int, k: nat)
    requires k + u >= -1074
    requires t < 2 * FRAC * Pow2(k)
    requires k + u > -1074 ==> FRAC * Pow2(k) <= t
    ensures NearestTo(Dyadic(t, u), NearestEven(t, k), k + u)
  {
    hide Dyadic, Pow2, NearestEven, AtLeastAsNear;
    var m, q, v := NearestEven(t, k), k + u, Dyadic(t, u);
    NearestRange(t, k);
    forall wm: nat, wq: int | Candidate(wm, wq) ensures AtLeastAsNear(v, m, q, Dyadic(wm, wq)) {
      if wq >= q {
        DyadicShift(wm, q, wq - q);
        AgainstMultiple(t, u, k, wm * Pow2(wq - q));
      } else {
        AgainstFiner(t, u, k, wm, wq);
      }
    }
  }

  lemma AgainstFiner(t: nat, u: int, k: nat, wm: nat, wq: int)
    requires wm < 2 * FRAC && wq < k + u && FRAC * Pow2(k) <= t
    ensures AtLeastAsNear(Dyadic(t, u), NearestEven(t, k), k + u, Dyadic(wm, wq))
  {
    hide Dyadic, Pow2, NearestEven;
    AgainstMultiple(t, u, k, FRAC);
    BelowFull(wm, wq, k + u);
    DyadicShift(FRAC, u, k);
    DyadicCompare(FRAC * Pow2(k), t, u);
    DyadicCompare(t, FRAC * Pow2(k), u);
  }

  lemma NearestRange(t: nat, k: nat)
    requires t < 2 * FRAC * Pow2(k)
    ensures NearestEven(t, k) <= 2 * FRAC
    ensures FRAC * Pow2(k) <= t ==> FRAC <= NearestEven(t, k)
  {
    hide Pow2;
    var p := Pow2(k);
    var q := t / p;
    assert q < 2 * FRAC by {
      if q >= 2 * FRAC { MulMono(2 * FRAC, q, p); }
    }
    if FRAC * p <= t && q < FRAC { MulMono(q + 1, FRAC, p); }
  }

  /** No multiple j of 2^(k+u) beats the rounded one. */
  lemma AgainstMultiple(t: nat, u: int, k: nat, j: nat)
    ensures AtLeastAsNear(Dyadic(t, u), NearestEven(t, k), k + u, Dyadic(j, k + u))
  {
    var m := NearestEven(t, k);
    DyadicShift(m, u, k);
    DyadicShift(j, u, k);
    NearestEvenIsNearest(t, k, j);
    DyadicDistance(m * Pow2(k), t, u);
    DyadicDistance(j * Pow2(k), t, u);
    DyadicCompare(Abs(m * Pow2(k) - t), Abs(j * Pow2(k) - t), u);
  }

  lemma DyadicDistance(a: int, b: int, u: int)
    ensures RAbs(Dyadic(a, u) - Dyadic(b, u)) == Dyadic(Abs(a - b), u)
  {
    DyadicCompare(a, b, u);
    DyadicCompare(b, a, u);
  }

  /** A 53-bit significand at a lower exponent lies below every full one at q. */
  lemma BelowFull(wm: nat, wq: int, q: int)
    requires wm < 2 * FRAC && wq < q
    ensures Dyadic(wm, wq) < Dyadic(FRAC, q)
  {
    var d := q - wq;
    DyadicShift(FRAC, wq, d);
    Pow2Mono(1, d);
    MulMono(Pow2(1), Pow2(d), FRAC);
    DyadicCompare(wm, FRAC * Pow2(d), wq);
  }

  // ----- the rounded value is unique

  /** A significand that carried is the smallest one at the next exponent. */
  lemma Carried(v: real, q: int)
    requires NearestTo(v, 2 * FRAC, q)
    ensures NearestTo(v, FRAC, q + 1) && Encode(FRAC, q + 1) == Encode(2 * FRAC, q)
  {
    hide Dyadic;
    DyadicCarry(q);
    forall wm: nat, wq: int | Candidate(wm, wq) ensures AtLeastAsNear(v, FRAC, q + 1, Dyadic(wm, wq)) {
      assert AtLeastAsNear(v, 2 * FRAC, q, Dyadic(wm, wq));
    }
  }

  /** Two nearest numbers that differ are equally near, and both have an even significand. */
  lemma BothNear(v: real, m: nat, q: int, n: nat, p: int)
    requires NearestTo(v, m, q) && NearestTo(v, n, p) && m < 2 * FRAC && n < 2 * FRAC
    requires Dyadic(m, q) != Dyadic(n, p)
    ensures RAbs(Dyadic(m, q) - v) == RAbs(Dyadic(n, p) - v) && m % 2 == 0 && n % 2 == 0
  {
    hide Dyadic;
    assert Candidate(m, q) && Candidate(n, p);
    assert AtLeastAsNear(v, m, q, Dyadic(n, p));
    assert AtLeastAsNear(v, n, p, Dyadic(m, q));
  }

  lemma Between(v: real, x: real, y: real, z: real)
    requires RAbs(x - v) == RAbs(z - v) && x < y < z
    ensures RAbs(y - v) < RAbs(x - v)
  {
  }

  /** No float lies strictly between two nearest ones. */
  lemma NothingBetween(v: real, m: nat, q: int, x: real, k: nat)
    requires NearestTo(v, m, q) && m < 2 * FRAC && k == m + 1 && RAbs(Dyadic(m, q) - v) == RAbs(x - v)
    ensures !(Dyadic(m, q) < Dyadic(k, q) < x)
  {
    hide Dyadic;
    if k < 2 * FRAC {
      assert Candidate(k, q);
      assert AtLeastAsNear(v, m, q, Dyadic(k, q));
    } else {
      DyadicCarry(q);
      assert Candidate(FRAC, q + 1);
      assert AtLeastAsNear(v, m, q, Dyadic(FRAC, q + 1));
    }
    var y := Dyadic(k, q);
    assert RAbs(Dyadic(m, q) - v) <= RAbs(y - v);
    if Dyadic(m, q) < y < x { Between(v, Dyadic(m, q), y, x); }
  }

  /** n at exponent q + d, seen from exponent q. */
  lemma Aligned(n: nat, d: nat) returns (t: nat)
    requires d > 0 ==> n >= FRAC
    ensures t == n * Pow2(d) && (d == 0 ==> t == n)
    ensures d > 0 ==> t >= 2 * FRAC && t % 2 == 0 && (t == 2 * FRAC ==> d == 1 && n == FRAC)
  {
    t := n * Pow2(d);
    if d == 0 {
      assert n * 1 == n;
    } else {
      var h := Pow2(d - 1);
      assert n * (2 * h) == 2 * (n * h);
      MulMono(1, h, n);
      assert n * h >= n;
      assert d == 1 ==> n * h == n;
      if d > 1 {
        assert h == 2 * Pow2(d - 2);
        MulMono(2, h, n);
        assert n * h >= 2 * n;
      }
    }
  }

  lemma NearestUniqueBelow(v: real, m: nat, q: int, n: nat, p: int)
    requires NearestTo(v, m, q) && NearestTo(v, n, p) && m < 2 * FRAC && n < 2 * FRAC
    requires q < p || (q == p && m <= n)
    ensures m == n && q == p
  {
    hide Dyadic, Pow2, NearestTo;
    var d := p - q;
    NearestRangeOf(v, m, q);
    NearestRangeOf(v, n, p);
    var t := Aligned(n, d);
    DyadicShift(n, q, d);
    DyadicCompare(m, t, q);
    DyadicCompare(m, m + 1, q);
    DyadicCompare(m + 1, t, q);
    if m != t {
      BothNear(v, m, q, n, p);
      NothingBetween(v, m, q, Dyadic(n, p), m + 1);
    }
  }

  lemma NearestRangeOf(v: real, m: nat, q: int)
    requires NearestTo(v, m, q)
    ensures q >= -1074 && (q > -1074 ==> m >= FRAC)
  {
  }

  lemma NearestUnique(v: real, m: nat, q: int, n: nat, p: int)
    requires NearestTo(v, m, q) && NearestTo(v, n, p)
    ensures Encode(m, q) == Encode(n, p)
    decreases if m >= 2 * FRAC then 1 else 0, if n >= 2 * FRAC then 1 else 0
  {
    hide Dyadic;
    if m == 2 * FRAC {
      Carried(v, q);
      NearestUnique(v, FRAC, q + 1, n, p);
    } else if n == 2 * FRAC {
      Carried(v, p);
      NearestUnique(v, m, q, FRAC, p + 1);
    } else if q < p || (q == p && m <= n) {
      NearestUniqueBelow(v, m, q, n, p);
    } else {
      NearestUniqueBelow(v, n, p, m, q);
    }
  }

  /** A real number has one correctly rounded float64. */
  lemma RoundedOnce(v: real, r: Pattern, r2: Pattern)
    requires RoundedTo(v, r) && RoundedTo(v, r2)
    ensures r == r2
  {
    hide Encode;
    var m: nat, q: int :|
      && NearestTo(RAbs(v), m, q)
      && r == (if v < 0.0 then SIGN else 0) + (if Encode(m, q) >= INF then INF else Encode(m, q));
    var n: nat, p: int :|
      && NearestTo(RAbs(v), n, p)
      && r2 == (if v < 0.0 then SIGN else 0) + (if Encode(n, p) >= INF then INF else Encode(n, p));
    NearestUnique(RAbs(v), m, q, n, p);
  }
}
