/** Unsigned 64-bit words as naturals below WORD, with Go's operators written out
    on integers: shifts lose the bits that leave the word, and a shift count of 64
    or more gives zero.  The bitwise operators are defined bit by bit. */
module Bits {

  const WORD: nat := 0x1_0000_0000_0000_0000

  function Pow2(n: nat): (p: nat)
    ensures p >= 1
  {
    if n == 0 then 1 else 2 * Pow2(n - 1)
  }

  function Or(x: nat, y: nat): nat {
    if x == 0 && y == 0 then 0
    else 2 * Or(x / 2, y / 2) + (if x % 2 == 1 || y % 2 == 1 then 1 else 0)
  }

  function And(x: nat, y: nat): (r: nat)
    ensures r <= x && r <= y
  {
    if x == 0 || y == 0 then 0
    else 2 * And(x / 2, y / 2) + (if x % 2 == 1 && y % 2 == 1 then 1 else 0)
  }

  function Xor(x: nat, y: nat): nat {
    if x == 0 && y == 0 then 0
    else 2 * Xor(x / 2, y / 2) + (if x % 2 != y % 2 then 1 else 0)
  }

  /** The complement `^x` of a 64-bit word. */
  function Not(x: nat): nat
    requires x < WORD
  {
    WORD - 1 - x
  }

  /** `x &^ y` clears the bits of y in x. */
  function AndNot(x: nat, y: nat): (r: nat)
    ensures r <= x
  {
    x - And(x, y)
  }

  /** `x << n` */
  function Shl(x: nat, n: nat): (r: nat)
    ensures r < WORD
  {
    if n >= 64 then 0 else (x * Pow2(n)) % WORD
  }

  /** `x >> n` */
  function Shr(x: nat, n: nat): (r: nat)
    ensures r <= x
  {
    if n >= 64 then 0 else DivNat(x, Pow2(n)); x / Pow2(n)
  }

  /** x * 2^n, with no bit lost. */
  function ShiftUp(x: nat, n: nat): (r: nat)
    ensures r == x * Pow2(n)
  {
    MulMono(0, x, Pow2(n));
    x * Pow2(n)
  }

  /** `a - b` on unsigned words: it wraps around. */
  function Sub(a: nat, b: nat): nat {
    (a - b) % WORD
  }

  /** `1<<n - 1` as a word: all ones once n reaches 64. */
  function Ones(n: nat): nat {
    Sub(Shl(1, n), 1)
  }

  /** The number of bits needed to write x. */
  function BitLen(x: nat): nat {
    if x == 0 then 0 else 1 + BitLen(x / 2)
  }

  // ----- powers of two

  lemma {:induction false} Pow2Add(a: nat, b: nat)
    ensures Pow2(a + b) == Pow2(a) * Pow2(b)
  {
    if a == 0 {
    } else {
      Pow2Add(a - 1, b);
      calc {
        Pow2(a + b);
        2 * Pow2(a - 1 + b);
        2 * (Pow2(a - 1) * Pow2(b));
        Pow2(a) * Pow2(b);
      }
    }
  }

  lemma Pow2Double(n: nat)
    requires n >= 1
    ensures Pow2(n) == 2 * Pow2(n - 1)
  {
  }

  lemma {:induction false} Pow2Mono(a: nat, b: nat)
    requires a <= b
    ensures Pow2(a) <= Pow2(b)
    ensures a < b ==> 2 * Pow2(a) <= Pow2(b)
    decreases b - a
  {
    if a < b {
      Pow2Mono(a + 1, b);
    }
  }

  lemma PowOne()
    ensures Pow2(1) == 2
  {
  }

  lemma Pow2_64()
    ensures Pow2(64) == WORD
  {
    assert Pow2(4) == 16;
    var e := 4;
    Pow2Add(e, e);
    assert Pow2(2 * e) == 0x100;
    Pow2Add(2 * e, 2 * e);
    assert Pow2(4 * e) == 0x1_0000;
    Pow2Add(4 * e, 4 * e);
    assert Pow2(8 * e) == 0x1_0000_0000;
    Pow2Add(8 * e, 8 * e);
  }

  /** Splitting a word at bit n: 2^n times 2^(64-n) is the word size. */
  lemma WordSplit(n: nat)
    requires n <= 64
    ensures Pow2(n) * Pow2(64 - n) == WORD
  {
    Pow2Add(n, 64 - n);
    Pow2_64();
  }

  /** x and y agree exactly when quotient and remainder do. */
  lemma DivModUnique(x: int, d: int, q: int, r: int)
    requires d > 0 && 0 <= r < d && x == q * d + r
    ensures x / d == q && x % d == r
  {
    var q', r' := x / d, x % d;
    if q' > q {
      MulMono(q + 1, q', d);
      assert false;
    } else if q' < q {
      MulMono(q' + 1, q, d);
      assert false;
    }
  }

  lemma DivNat(x: nat, p: nat)
    requires p > 0
    ensures 0 <= x / p <= x && 0 <= x % p < p && x == (x / p) * p + x % p
  {
    var q := x / p;
    if q < 0 { MulMono(q, -1, p); } else { MulMono(1, p, q); }
  }

  lemma MulMono(a: int, b: int, c: int)
    requires a <= b && c >= 0
    ensures a * c <= b * c
  {
  }

  lemma MulStrict(a: int, b: int, c: int)
    requires a < b && c > 0
    ensures a * c < b * c
    ensures a * c + c <= b * c
  {
    assert (b - a - 1) * c >= 0;
  }

  /** Dividing by a product is dividing twice. */
  lemma DivDiv(x: nat, a: nat, b: nat)
    requires a > 0 && b > 0
    ensures a * b > 0
    ensures x / (a * b) == (x / a) / b
    ensures x % (a * b) == ((x / a) % b) * a + x % a
  {
    var q, r := x / a, x % a;
    var q2, r2 := q / b, q % b;
    assert x == q * a + r && q == q2 * b + r2;
    assert r2 * a + r < a * b by { MulMono(r2, b - 1, a); assert (b - 1) * a == a * b - a; }
    assert x == q2 * (a * b) + (r2 * a + r) by {
      assert q * a == (q2 * b + r2) * a == q2 * b * a + r2 * a;
      assert q2 * b * a == q2 * (a * b);
    }
    assert a * b > 0 by { MulMono(1, b, a); }
    DivModUnique(x, a * b, q2, r2 * a + r);
  }

  // ----- bitwise facts

  /** Or-ing a multiple of 2^n with a number below 2^n adds them. */
  lemma {:induction false} OrDisjoint(h: nat, l: nat, n: nat)
    requires l < Pow2(n)
    ensures Or(h * Pow2(n), l) == h * Pow2(n) + l
    ensures Or(l, h * Pow2(n)) == h * Pow2(n) + l
  {
    if n == 0 {
      OrZero(h);
      assert h * Pow2(n) == h;
    } else {
      var p := Pow2(n - 1);
      assert h * Pow2(n) == 2 * (h * p);
      var x := h * Pow2(n);
      assert x / 2 == h * p && x % 2 == 0;
      OrDisjoint(h, l / 2, n - 1);
    }
  }

  lemma {:induction false} OrZero(x: nat)
    ensures Or(x, 0) == x && Or(0, x) == x
  {
    if x != 0 { OrZero(x / 2); }
  }

  lemma {:induction false} OrZeroIff(x: nat, y: nat)
    ensures Or(x, y) == 0 <==> x == 0 && y == 0
  {
    if x != 0 || y != 0 { OrZeroIff(x / 2, y / 2); }
  }

  lemma {:induction false} OrSame(x: nat)
    ensures Or(x, x) == x
  {
    if x != 0 { OrSame(x / 2); }
  }

  lemma AndNothing(x: nat)
    ensures And(x, 0) == 0 && And(0, x) == 0 && Pow2(0) == 1
  {
  }

  /** Masking with 2^n - 1 is the remainder modulo 2^n. */
  lemma {:induction false} AndLow(x: nat, n: nat)
    ensures And(x, Pow2(n) - 1) == x % Pow2(n)
  {
    hide *;
    if n == 0 {
      AndNothing(x);
      DivModUnique(x, 1, x, 0);
    } else if x == 0 {
      AndNothing(Pow2(n) - 1);
      DivModUnique(0, Pow2(n), 0, 0);
    } else {
      AndLow(x / 2, n - 1);
      Pow2Double(n);
      AndLowStep(x, Pow2(n - 1), Pow2(n));
    }
  }

  lemma AndLowStep(x: nat, p: nat, m: nat)
    requires p >= 1 && m == 2 * p && And(x / 2, p - 1) == (x / 2) % p
    ensures And(x, m - 1) == x % m
  {
    hide *;
    MaskHalves(p);
    AndHalves(x, m - 1);
    DivDiv(x, 2, p);
  }

  lemma MaskHalves(p: nat)
    requires p >= 1
    ensures (2 * p - 1) / 2 == p - 1 && (2 * p - 1) % 2 == 1
  {
  }

  lemma ShiftUpDouble(x: nat, n: nat)
    requires n >= 1
    ensures ShiftUp(x, n) == 2 * ShiftUp(x, n - 1)
  {
    Pow2Double(n);
    hide *;
    assert x * (2 * Pow2(n - 1)) == 2 * (x * Pow2(n - 1));
  }

  /** A mask moved up by n bits looks only at the bits from n on. */
  lemma {:induction false} AndShifted(q: nat, r: nat, m: nat, n: nat)
    requires r < Pow2(n)
    ensures And(ShiftUp(q, n) + r, ShiftUp(m, n)) == ShiftUp(And(q, m), n)
  {
    if n > 0 {
      Pow2Double(n);
      hide *;
      ShiftUpDouble(q, n);
      ShiftUpDouble(m, n);
      ShiftUpDouble(And(q, m), n);
      AndShifted(q, r / 2, m, n - 1);
      AndEvenMask(ShiftUp(q, n - 1), r, ShiftUp(m, n - 1));
    }
  }

  lemma AndEvenMask(a: nat, r: nat, b: nat)
    ensures And(2 * a + r, 2 * b) == 2 * And(a + r / 2, b)
  {
    hide *;
    AndHalves(2 * a + r, 2 * b);
    assert (2 * a + r) / 2 == a + r / 2 && (2 * b) / 2 == b;
  }

  lemma {:induction false} XorZeroIff(x: nat, y: nat)
    ensures Xor(x, y) == 0 <==> x == y
  {
    if x != 0 || y != 0 { XorZeroIff(x / 2, y / 2); }
  }

  /** A single bit shifted within the word. */
  lemma OneShl(n: nat)
    requires n < 64
    ensures Shl(1, n) == Pow2(n) < WORD
  {
    Pow2Mono(n, 64);
    Pow2_64();
  }

  /** The mask 1<<n - 1 keeps the low n bits of a word (all of it from 64 on). */
  lemma AndOnes(x: nat, n: nat)
    requires x < WORD
    ensures And(x, Ones(n)) == if n >= 64 then x else x % Pow2(n)
  {
    if n >= 64 {
      hide Pow2, And;
      Pow2_64();
      AndLow(x, 64);
    } else {
      hide Pow2, And, Shl;
      OneShl(n);
      AndLow(x, n);
    }
  }

  lemma AndHalves(x: nat, y: nat)
    ensures And(x, y) == 2 * And(x / 2, y / 2) + (if x % 2 == 1 && y % 2 == 1 then 1 else 0)
  {
  }

  /** Clearing bit 0 of a word. */
  lemma AndClearBit0(x: nat)
    requires x < WORD
    ensures And(x, WORD - 2) == x - x % 2
  {
    if x > 0 {
      hide *;
      AndHalves(x, WORD - 2);
      var e := 64;
      Pow2_64();
      Pow2Double(e);
      AndLow(x / 2, e - 1);
      DivModUnique(x / 2, Pow2(e - 1), 0, x / 2);
    }
  }

  lemma {:induction false} BitLenBounds(x: nat)
    requires x > 0
    ensures BitLen(x) >= 1
    ensures Pow2(BitLen(x) - 1) <= x < Pow2(BitLen(x))
  {
    if x > 1 {
      BitLenBounds(x / 2);
      assert BitLen(x) == 1 + BitLen(x / 2);
    } else {
      assert BitLen(1) == 1;
    }
  }

  /** The bit length is the only n with 2^(n-1) <= x < 2^n. */
  lemma BitLenUnique(x: nat, n: nat)
    requires n >= 1 && Pow2(n - 1) <= x < Pow2(n)
    ensures BitLen(x) == n
  {
    BitLenBounds(x);
    if BitLen(x) < n {
      Pow2Mono(BitLen(x), n - 1);
      assert false;
    } else if BitLen(x) > n {
      Pow2Mono(n, BitLen(x) - 1);
      assert false;
    }
  }

  lemma BitLenWord(x: nat)
    requires x < WORD
    ensures BitLen(x) <= 64
  {
    if x > 0 {
      BitLenBounds(x);
      Pow2_64();
      if BitLen(x) > 64 {
        Pow2Mono(64, BitLen(x) - 1);
        assert false;
      }
    }
  }

  /** `bits.LeadingZeros64` */
  function LeadingZeros64(x: nat): (n: nat)
    requires x < WORD
    ensures n <= 64
    ensures x > 0 ==> n < 64 && Pow2(63 - n) <= x < Pow2(64 - n)
    ensures x == 0 <==> n == 64
  {
    BitLenWord(x);
    if x > 0 then BitLenBounds(x); 64 - BitLen(x) else 64
  }
}
