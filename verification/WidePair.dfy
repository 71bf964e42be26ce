/** The 128-bit helpers of math/fma.go: a pair of words (u1, u2) stands for the
    number u1 * 2^64 + u2. */
module WidePair {
  import opened Bits
  import opened Rounding

  type Word = x: nat | x < WORD

  function Wide(u: (nat, nat)): nat { u.0 * WORD + u.1 }

  /** `bits.Mul64` */
  function Mul64(x: Word, y: Word): (r: (nat, nat))
    ensures r.0 < WORD && r.1 < WORD && Wide(r) == x * y
  {
    MulMono(0, x, y);
    DivNat(x * y, WORD);
    Mul64Fits(x, y, (x * y) / WORD, (x * y) % WORD);
    ((x * y) / WORD, (x * y) % WORD)
  }

  /** `bits.Add64`: sum and carry-out. */
  function Add64(x: Word, y: Word, carry: nat): (r: (nat, nat))
    requires carry <= 1
    ensures r.0 < WORD && r.1 <= 1 && r.1 * WORD + r.0 == x + y + carry
  {
    var s := x + y + carry;
    if s >= WORD then (s - WORD, 1) else (s, 0)
  }

  /** `bits.Sub64`: difference and borrow-out. */
  function Sub64(x: Word, y: Word, borrow: nat): (r: (nat, nat))
    requires borrow <= 1
    ensures r.0 < WORD && r.1 <= 1 && r.0 - r.1 * WORD == x - y - borrow
  {
    var d := x - y - borrow;
    if d < 0 then (d + WORD, 1) else (d, 0)
  }

  lemma Mul64Fits(x: Word, y: Word, h: nat, l: nat)
    requires x * y == h * WORD + l
    ensures h < WORD
  {
    hide *;
    MulMono(x, WORD, y);
    MulMono(y, WORD - 1, WORD);
    MulMinus(WORD, 1, WORD);
    if h >= WORD { MulMono(WORD, h, WORD); assert false; }
  }

  function Zero(x: nat): (b: nat) ensures b <= 1 { if x == 0 then 1 else 0 }

  function Nonzero(x: nat): (b: nat) ensures b <= 1 { if x != 0 then 1 else 0 }

  /** `shl`.  The counts 64-n and n-64 wrap around when negative, and a wrapped
      count shifts everything out. */
  function ShlPair(u1: Word, u2: Word, n: Word): (nat, nat) {
    (Or(Or(Shl(u1, n), Shr(u2, Sub(64, n))), Shl(u2, Sub(n, 64))), Shl(u2, n))
  }

  /** `shr` */
  function ShrPair(u1: Word, u2: Word, n: Word): (nat, nat) {
    (Shr(u1, n), Or(Or(Shr(u2, n), Shl(u1, Sub(64, n))), Shr(u1, Sub(n, 64))))
  }

  /** `shrcompress` */
  function ShrCompress(u1: Word, u2: Word, n: Word): (nat, nat) {
    if n == 0 then (u1, u2)
    else if n == 64 then (0, Or(u1, Nonzero(u2)))
    else if n >= 128 then (0, Nonzero(Or(u1, u2)))
    else if n < 64 then
      var r := ShrPair(u1, u2, n);
      (r.0, Or(r.1, Nonzero(And(u2, Ones(n)))))
    else
      var r := ShrPair(u1, u2, n);
      (r.0, Or(r.1, Nonzero(Or(And(u1, Ones(n - 64)), u2))))
  }

  /** `lz` */
  function Lz(u1: Word, u2: Word): nat {
    var l := LeadingZeros64(u1);
    if l == 64 then l + LeadingZeros64(u2) else l
  }

  // ----- correctness

  lemma SubWraps(a: nat, b: nat)
    requires a < WORD && b < WORD
    ensures Sub(a, b) == if a >= b then a - b else WORD - (b - a)
  {
  }

  /** u = q * 2^n + r with both halves in range. */
  lemma SplitWord(u: Word, n: nat) returns (q: nat, r: nat)
    requires n <= 64
    ensures u == q * Pow2(n) + r && r < Pow2(n) && q < Pow2(64 - n)
    ensures n < 64 ==> Shr(u, n) == q
    ensures n == 64 ==> q == 0 && Shr(u, n) == 0
  {
    q, r := Divide(u, n);
    SplitBound(u, n, q, r);
    PowZero();
    if n < 64 {
      ShrIs(u, n, q, r);
    } else {
      assert Shr(u, n) == 0;
    }
  }

  lemma SplitBound(u: Word, n: nat, q: nat, r: nat)
    requires n <= 64 && u == q * Pow2(n) + r
    ensures q < Pow2(64 - n)
  {
    hide *;
    WordSplit(n);
    if q >= Pow2(64 - n) {
      MulMono(Pow2(64 - n), q, Pow2(n));
      assert false;
    }
  }

  lemma ShrIs(u: Word, n: nat, q: nat, r: nat)
    requires n < 64 && u == q * Pow2(n) + r && r < Pow2(n)
    ensures Shr(u, n) == q
  {
    hide Pow2;
    DivModUnique(u, Pow2(n), q, r);
  }

  lemma PowZero()
    ensures Pow2(0) == 1
  {
  }

  /** A left shift keeps the low 64-n bits, moved up. */
  lemma ShlKeepsLow(u: Word, n: nat, q: nat, r: nat)
    requires n <= 64 && u == q * Pow2(64 - n) + r && r < Pow2(64 - n)
    ensures r * Pow2(n) < WORD
    ensures u * Pow2(n) == q * WORD + r * Pow2(n)
    ensures Shl(u, n) == r * Pow2(n)
  {
    hide *;
    WordSplit(n);
    PowZero();
    MulStrict(r, Pow2(64 - n), Pow2(n));
    ShiftedParts(u, q, Pow2(64 - n), r, Pow2(n));
    if n < 64 {
      ShlIs(u, n, q, r * Pow2(n));
    } else {
      ShiftOut(u, n);
    }
  }

  lemma ShiftedParts(u: int, q: int, c: int, r: int, p: int)
    requires u == q * c + r
    ensures u * p == q * (c * p) + r * p
  {
    Distribute(q, c, r, p);
    assert p * c == c * p;
  }

  lemma ShlIs(u: Word, n: nat, q: nat, r: nat)
    requires n < 64 && u * Pow2(n) == q * WORD + r && r < WORD
    ensures Shl(u, n) == r
  {
  }

  /** `shl` is the 128-bit left shift: bits above 2^128 are lost, for every count. */
  lemma ShlPairShifts(u1: Word, u2: Word, n: Word)
    ensures ShlPair(u1, u2, n).0 < WORD && ShlPair(u1, u2, n).1 < WORD
    ensures Wide(ShlPair(u1, u2, n)) == (Wide((u1, u2)) * Pow2(n)) % (WORD * WORD)
  {
    if n < 64 {
      ShlPairShort(u1, u2, n);
    } else if n < 128 {
      ShlPairLong(u1, u2, n);
    } else {
      SubWraps(64, n);
      SubWraps(n, 64);
      OrZero(0);
      Pow2Add(128, n - 128);
      Pow2_128();
      hide *;
      var w := Wide((u1, u2));
      MulAssoc(w, Pow2(n - 128), WORD * WORD);
      DivModUnique(w * Pow2(n), WORD * WORD, w * Pow2(n - 128), 0);
    }
  }

  lemma ShlPairShort(u1: Word, u2: Word, n: nat)
    requires n < 64
    ensures ShlPair(u1, u2, n).0 < WORD && ShlPair(u1, u2, n).1 < WORD
    ensures Wide(ShlPair(u1, u2, n)) == (Wide((u1, u2)) * Pow2(n)) % (WORD * WORD)
  {
    hide *;
    var a, b := SplitWord(u1, 64 - n);
    var d, e := SplitWord(u2, 64 - n);
    assert 64 - (64 - n) == n;
    ShlKeepsLow(u1, n, a, b);
    ShlKeepsLow(u2, n, d, e);
    ShlShortBits(u1, u2, n, b, d, e);
    HighPart(b, d, n);
    ShlCollect(u1, u2, Pow2(n), a, b * Pow2(n), d, e * Pow2(n));
    WideOf(u1, u2);
    WideOf(b * Pow2(n) + d, e * Pow2(n));
  }

  /** The or-ed pieces of the high word do not overlap. */
  lemma ShlShortBits(u1: Word, u2: Word, n: nat, b: nat, d: nat, e: nat)
    requires n < 64 && Shl(u1, n) == b * Pow2(n) && Shl(u2, n) == e * Pow2(n)
    requires Shr(u2, 64 - n) == d < Pow2(n)
    ensures ShlPair(u1, u2, n) == (b * Pow2(n) + d, e * Pow2(n))
  {
    hide Pow2, Or, Shl, Shr;
    SubWraps(64, n);
    SubWraps(n, 64);
    ShiftOut(u2, Sub(n, 64));
    OrDisjoint(b, d, n);
    OrZero(b * Pow2(n) + d);
  }

  lemma ShiftOut(u: nat, n: nat)
    requires n >= 64
    ensures Shl(u, n) == 0 && Shr(u, n) == 0
  {
  }

  lemma HighPart(b: nat, d: nat, n: nat)
    requires n <= 64 && b < Pow2(64 - n) && d < Pow2(n)
    ensures b * Pow2(n) + d < WORD
  {
    hide *;
    WordSplit(n);
    MulStrict(b, Pow2(64 - n), Pow2(n));
  }

  lemma WideOf(a: nat, b: nat)
    ensures Wide((a, b)) == a * WORD + b
  {
  }

  lemma ShlCollect(u1: nat, u2: nat, p: nat, a: nat, bp: nat, d: nat, ep: nat)
    requires u1 * p == a * WORD + bp && u2 * p == d * WORD + ep
    requires bp + d < WORD && ep < WORD
    ensures ((u1 * WORD + u2) * p) % (WORD * WORD) == (bp + d) * WORD + ep
  {
    hide *;
    PairTimes(u1, u2, p);
    LowPart((u1 * WORD + u2) * p, u1 * p, u2 * p, a, bp, d, ep);
  }

  lemma PairTimes(u1: int, u2: int, p: int)
    ensures (u1 * WORD + u2) * p == (u1 * p) * WORD + u2 * p
  {
  }

  lemma LowPart(t: int, s1: int, s2: int, a: int, bp: nat, d: nat, ep: nat)
    requires t == s1 * WORD + s2 && s1 == a * WORD + bp && s2 == d * WORD + ep
    requires bp + d < WORD && ep < WORD
    ensures t % (WORD * WORD) == (bp + d) * WORD + ep
  {
    assert t == a * (WORD * WORD) + ((bp + d) * WORD + ep);
  }

  lemma ShlPairLong(u1: Word, u2: Word, n: nat)
    requires 64 <= n < 128
    ensures ShlPair(u1, u2, n).0 < WORD && ShlPair(u1, u2, n).1 < WORD
    ensures Wide(ShlPair(u1, u2, n)) == (Wide((u1, u2)) * Pow2(n)) % (WORD * WORD)
  {
    hide *;
    var m := n - 64;
    var d, e := SplitWord(u2, 64 - m);
    ShlKeepsLow(u2, m, d, e);
    ShlLongBits(u1, u2, n, e * Pow2(m));
    WideOf(u1, u2);
    WideOf(e * Pow2(m), 0);
    Pow2Add(64, m);
    Pow2_64();
    ShlLongCollect(u1, u2, Pow2(m), d, e * Pow2(m));
    assert Pow2(n) == WORD * Pow2(m);
  }

  lemma ShlLongBits(u1: Word, u2: Word, n: nat, v: nat)
    requires 64 <= n < 128 && Shl(u2, n - 64) == v
    ensures ShlPair(u1, u2, n) == (v, 0)
  {
    SubWraps(64, n);
    SubWraps(n, 64);
    OrZero(v);
    if n == 64 {
      ShiftZero(u2);
      OrSame(u2);
    }
    hide Pow2, Or;
  }

  lemma ShiftZero(u: Word)
    ensures Shl(u, 0) == u && Shr(u, 0) == u
  {
  }

  lemma ShlLongCollect(u1: nat, u2: nat, p: nat, d: nat, ep: nat)
    requires u2 * p == d * WORD + ep && ep < WORD
    ensures ((u1 * WORD + u2) * (WORD * p)) % (WORD * WORD) == ep * WORD
  {
    hide *;
    PairTimes(u1, u2, p);
    MulAssoc(u1 * WORD + u2, p, WORD);
    LowPartLong(((u1 * WORD + u2) * p) * WORD, (u1 * WORD + u2) * p, u1 * p, u2 * p, d, ep);
  }

  lemma LowPartLong(tw: int, t: int, s1: int, s2: int, d: int, ep: nat)
    requires tw == t * WORD && t == s1 * WORD + s2 && s2 == d * WORD + ep && ep < WORD
    ensures tw % (WORD * WORD) == ep * WORD
  {
    assert tw == (s1 + d) * (WORD * WORD) + ep * WORD;
  }

  // ----- the compressing right shift

  /** Or-ing a single bit into x. */
  lemma OrBit(x: nat, b: nat)
    requires b <= 1
    ensures Or(x, b) == Jam(x, b)
  {
    OrZero(x);
    OrZero(x / 2);
  }

  /** `shrcompress` keeps the quotient by 2^n and ors everything below into bit 0. */
  lemma ShrCompressIsSticky(u1: Word, u2: Word, n: Word)
    ensures ShrCompress(u1, u2, n).0 < WORD && ShrCompress(u1, u2, n).1 < WORD
    ensures Wide(ShrCompress(u1, u2, n)) == Sticky(Wide((u1, u2)), n)
  {
    if n == 0 {
      PowZero();
      StickyExact(Wide((u1, u2)), 0);
    } else if n == 64 {
      Pow2_64();
      OrBit(u1, Nonzero(u2));
      hide Pow2, Sticky, Or;
      ByDivision(Wide((u1, u2)), n, u1, u2);
      JamWord(u1, u2);
    } else if n < 64 {
      CompressShort(u1, u2, n);
    } else if n < 128 {
      CompressLong(u1, u2, n);
    } else {
      OrZeroIff(u1, u2);
      WideBound(u1, u2, n);
      hide Pow2, Sticky, Or;
      ByDivision(Wide((u1, u2)), n, 0, Wide((u1, u2)));
    }
  }

  lemma JamWord(q: Word, r: nat)
    ensures Jam(q, r) < WORD
    ensures Jam(q, Nonzero(r)) == Jam(q, r)
  {
  }

  lemma WideBound(u1: Word, u2: Word, n: nat)
    requires n >= 128
    ensures u1 * WORD + u2 < Pow2(n)
  {
    hide *;
    Pow2_128();
    Pow2Mono(128, n);
    MulMono(u1, WORD - 1, WORD);
  }

  lemma Pow2_128()
    ensures Pow2(128) == WORD * WORD
  {
    hide *;
    Pow2_64();
    Pow2Add(64, 64);
    Square(Pow2(64), WORD);
  }

  lemma Square(v: nat, w: nat)
    requires v == w
    ensures v * v == w * w
  {
  }

  lemma CompressShort(u1: Word, u2: Word, n: Word)
    requires 0 < n < 64
    ensures ShrCompress(u1, u2, n).0 < WORD && ShrCompress(u1, u2, n).1 < WORD
    ensures Wide(ShrCompress(u1, u2, n)) == Sticky(Wide((u1, u2)), n)
  {
    hide *;
    var a, b := SplitWord(u1, n);
    var d, e := SplitWord(u2, n);
    var low := CompressShortBits(u1, u2, n, a, b, d, e);
    WideOf(u1, u2);
    AtMost(u1, a, b, Pow2(n));
    ShrShortTotal(u1, u2, n, a, b, d, e);
    ByDivision(u1 * WORD + u2, n, a * WORD + low, e);
    JamHigh(a, low, e);
    WideOf(a, Jam(low, e));
  }

  lemma CompressShortBits(u1: Word, u2: Word, n: Word, a: nat, b: nat, d: nat, e: nat) returns (low: nat)
    requires 0 < n < 64
    requires u1 == a * Pow2(n) + b && b < Pow2(n) && Shr(u1, n) == a
    requires u2 == d * Pow2(n) + e && e < Pow2(n) && Shr(u2, n) == d < Pow2(64 - n)
    ensures low == b * Pow2(64 - n) + d && Jam(low, e) < WORD
    ensures ShrCompress(u1, u2, n) == (a, Jam(low, e))
  {
    hide *;
    assert 64 - (64 - n) == n;
    ShlKeepsLow(u1, 64 - n, a, b);
    MulMono(0, b, Pow2(64 - n));
    low := b * Pow2(64 - n) + d;
    HighPart(b, d, 64 - n);
    ShrShortBits(u1, u2, n, a, b, d);
    MaskIs(u2, n, d, e);
    CompressIs(u1, u2, n, a, low, e);
    OrBit(low, Nonzero(e));
    JamWord(low, e);
  }

  lemma ShrShortTotal(u1: nat, u2: nat, n: nat, a: nat, b: nat, d: nat, e: nat)
    requires n <= 64 && u1 == a * Pow2(n) + b && u2 == d * Pow2(n) + e
    ensures u1 * WORD + u2 == (a * WORD + (b * Pow2(64 - n) + d)) * Pow2(n) + e
  {
    hide *;
    WordSplit(n);
    ShrCollect(u1, u2, a, b, d, e, Pow2(n), Pow2(64 - n), WORD);
  }

  lemma AtMost(u: nat, a: nat, b: nat, p: nat)
    requires u == a * p + b && p >= 1
    ensures a <= u
  {
    MulMono(1, p, a);
  }

  lemma ShrShortBits(u1: Word, u2: Word, n: nat, a: nat, b: nat, d: nat)
    requires 0 < n < 64 && Shr(u1, n) == a && Shr(u2, n) == d < Pow2(64 - n)
    requires Shl(u1, 64 - n) == b * Pow2(64 - n)
    ensures ShrPair(u1, u2, n) == (a, b * Pow2(64 - n) + d)
  {
    hide Pow2, Or, Shl, Shr;
    SubWraps(64, n);
    SubWraps(n, 64);
    ShiftOut(u1, Sub(n, 64));
    OrDisjoint(b, d, 64 - n);
    OrZero(b * Pow2(64 - n) + d);
  }

  lemma MaskIs(u: Word, n: nat, q: nat, r: nat)
    requires n < 64 && u == q * Pow2(n) + r && r < Pow2(n)
    ensures And(u, Ones(n)) == r
  {
    hide *;
    AndOnes(u, n);
    DivModUnique(u, Pow2(n), q, r);
  }

  lemma CompressIs(u1: Word, u2: Word, n: Word, a: nat, low: nat, e: nat)
    requires 0 < n < 64 && ShrPair(u1, u2, n) == (a, low) && And(u2, Ones(n)) == e
    ensures ShrCompress(u1, u2, n) == (a, Or(low, Nonzero(e)))
  {
    hide ShrPair, Or, And, Ones;
  }

  lemma ShrCollect(u1: nat, u2: nat, a: nat, b: nat, d: nat, e: nat, p: nat, c: nat, w: nat)
    requires u1 == a * p + b && u2 == d * p + e && p * c == w
    ensures u1 * w + u2 == (a * w + (b * c + d)) * p + e
  {
    hide *;
    Distribute(a, w, b * c + d, p);
    MulMinus(b * c + d, d, p);
    MulAssoc(b, c, p);
    assert c * p == w;
    Distribute(a, p, b, w);
    assert p * w == w * p;
  }

  lemma JamHigh(a: nat, low: nat, e: nat)
    ensures Jam(a * WORD + low, e) == a * WORD + Jam(low, e)
  {
    var h := a * 0x8000_0000_0000_0000;
    assert a * WORD == 2 * h;
  }

  lemma CompressLong(u1: Word, u2: Word, n: Word)
    requires 64 < n < 128
    ensures ShrCompress(u1, u2, n).0 < WORD && ShrCompress(u1, u2, n).1 < WORD
    ensures Wide(ShrCompress(u1, u2, n)) == Sticky(Wide((u1, u2)), n)
  {
    hide *;
    var m := n - 64;
    var q, r := SplitWord(u1, m);
    ShrLongBits(u1, u2, n, q);
    MaskIs(u1, m, q, r);
    OrZeroIff(r, u2);
    CompressLongIs(u1, u2, n, q, r);
    OrBit(q, Nonzero(Or(r, u2)));
    assert q < WORD by { AtMost(u1, q, r, Pow2(m)); }
    JamWord(q, Or(r, u2));
    JamWord(q, r * WORD + u2);
    SameNonzero(r, u2);
    WideOf(u1, u2);
    WideOf(0, Jam(q, Or(r, u2)));
    Pow2Add(64, m);
    Pow2_64();
    ShrLongCollect(u1, u2, q, r, Pow2(m), Pow2(n));
    ByDivision(u1 * WORD + u2, n, q, r * WORD + u2);
  }

  lemma SameNonzero(r: nat, u2: nat)
    ensures Or(r, u2) == 0 <==> r * WORD + u2 == 0
    ensures Nonzero(Or(r, u2)) == Nonzero(r * WORD + u2)
  {
    hide Or;
    OrZeroIff(r, u2);
  }

  lemma ShrLongCollect(u1: nat, u2: nat, q: nat, r: nat, p: nat, pn: nat)
    requires u1 == q * p + r && r < p && u2 < WORD && pn == WORD * p
    ensures u1 * WORD + u2 == q * pn + (r * WORD + u2)
    ensures r * WORD + u2 < pn
  {
    hide *;
    MulAssoc(q, p, WORD);
    MulMono(r, p - 1, WORD);
  }

  lemma ShrLongBits(u1: Word, u2: Word, n: nat, q: nat)
    requires 64 < n < 128 && Shr(u1, n - 64) == q
    ensures ShrPair(u1, u2, n) == (0, q)
  {
    hide Pow2, Or, Shl;
    SubWraps(64, n);
    SubWraps(n, 64);
    ShiftOut(u1, Sub(64, n));
    ShiftOut(u1, n);
    ShiftOut(u2, n);
    OrZero(0);
    OrZero(q);
  }

  lemma CompressLongIs(u1: Word, u2: Word, n: Word, q: nat, r: nat)
    requires 64 < n < 128 && ShrPair(u1, u2, n) == (0, q) && And(u1, Ones(n - 64)) == r
    ensures ShrCompress(u1, u2, n) == (0, Or(q, Nonzero(Or(r, u2))))
  {
    hide ShrPair, Or, And, Ones;
  }

  // ----- leading zeros

  /** `lz` counts the leading zeros of the 128-bit number. */
  lemma LzCounts(u1: Word, u2: Word)
    requires Wide((u1, u2)) > 0
    ensures Lz(u1, u2) < 128
    ensures Pow2(127 - Lz(u1, u2)) <= Wide((u1, u2)) < Pow2(128 - Lz(u1, u2))
  {
    hide Pow2, LeadingZeros64;
    var l := LeadingZeros64(u1);
    if l < 64 {
      Pow2Add(64, 63 - l);
      Pow2Add(64, 64 - l);
      Pow2_64();
    }
  }
}
