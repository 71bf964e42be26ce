/** Rounding to nearest, ties to even, on integers; and "sticky" truncation, which
    keeps just enough of the lost bits for a later rounding to come out the same. */
module Rounding {
  import opened Bits

  /** t / 2^k rounded down, with bit 0 set when anything was lost. */
  function Sticky(t: nat, k: nat): nat {
    DivNat(t, Pow2(k));
    Jam(t / Pow2(k), t % Pow2(k))
  }

  /** The remainder r jammed into bit 0 of the quotient q. */
  function Jam(q: nat, r: nat): nat {
    if r == 0 || q % 2 == 1 then q else q + 1
  }

  /** t / 2^k rounded to the nearest integer, ties to the even one. */
  function NearestEven(t: nat, k: nat): nat {
    DivNat(t, Pow2(k));
    Settle(t / Pow2(k), t % Pow2(k), Pow2(k))
  }

  /** q or q + 1, whichever is nearer to q + r/p; the even one when r/p is one half. */
  function Settle(q: nat, r: nat, p: nat): nat {
    if 2 * r < p then q
    else if 2 * r > p then q + 1
    else q + q % 2
  }

  function Abs(x: int): nat { if x < 0 then -x else x }

  /** What NearestEven means: no multiple of 2^k is closer to t, and when another
      one is just as close the result is even. */
  lemma NearestEvenIsNearest(t: nat, k: nat, j: int)
    ensures var n := NearestEven(t, k);
            && Abs(n * Pow2(k) - t) <= Abs(j * Pow2(k) - t)
            && (Abs(n * Pow2(k) - t) == Abs(j * Pow2(k) - t) && j != n ==> n % 2 == 0)
  {
    hide Pow2;
    SettleIsNearest(t, Pow2(k), t / Pow2(k), t % Pow2(k), j);
  }

  lemma SettleIsNearest(t: int, p: nat, q: nat, r: nat, j: int)
    requires t == q * p + r && r < p
    ensures var n := Settle(q, r, p);
            && Abs(n * p - t) <= Abs(j * p - t)
            && (Abs(n * p - t) == Abs(j * p - t) && j != n ==> n % 2 == 0)
  {
    hide Abs;
    DistanceToMultiple(t, p, q, r, j);
    DistanceToMultiple(t, p, q, r, Settle(q, r, p));
  }

  /** How far the multiple j * p lies from q * p + r. */
  lemma DistanceToMultiple(t: int, p: nat, q: int, r: nat, j: int)
    requires t == q * p + r && r < p
    ensures j == q ==> Abs(j * p - t) == r
    ensures j == q + 1 ==> Abs(j * p - t) == p - r
    ensures j < q ==> Abs(j * p - t) >= p + r
    ensures j > q + 1 ==> Abs(j * p - t) >= 2 * p - r
  {
    if j < q {
      MulStrict(j, q, p);
    } else if j > q {
      MulMono(q + 1, j, p);
      if j > q + 1 { MulStrict(q + 1, j, p); }
    }
  }

  /** Both are determined by any quotient and remainder. */
  lemma ByDivision(t: nat, k: nat, q: nat, r: nat)
    requires t == q * Pow2(k) + r && r < Pow2(k)
    ensures Sticky(t, k) == Jam(q, r)
    ensures NearestEven(t, k) == Settle(q, r, Pow2(k))
  {
    hide Pow2, Jam, Settle;
    DivModUnique(t, Pow2(k), q, r);
  }

  /** Sticky truncation can be done in two stages. */
  lemma StickyCompose(t: nat, a: nat, b: nat)
    ensures Sticky(Sticky(t, a), b) == Sticky(t, a + b)
  {
    if b == 0 {
      assert Pow2(0) == 1;
    } else {
      var q, r, d, x := TwoStage(t, a, b);
      Jammed(q, r, d, x, Pow2(b - 1));
      Pow2Double(b);
      var st := Jam(q, r);
      hide *;
      ByDivision(t, a, q, r);
      ByDivision(st, b, d, st - d * Pow2(b));
      ByDivision(t, a + b, d, x * Pow2(a) + r);
      JamJam(q, r, d, x, st - d * Pow2(b), Pow2(a));
    }
  }

  /** The quotients and remainders of dividing first by 2^a, then by 2^b. */
  lemma TwoStage(t: nat, a: nat, b: nat) returns (q: nat, r: nat, d: nat, x: nat)
    requires b >= 1
    ensures t == q * Pow2(a) + r && r < Pow2(a)
    ensures q == d * Pow2(b) + x && x < Pow2(b)
    ensures x * Pow2(a) + r >= 0
    ensures t == d * Pow2(a + b) + (x * Pow2(a) + r) && x * Pow2(a) + r < Pow2(a + b)
  {
    hide *;
    Pow2Add(a, b);
    var m, n := Pow2(a), Pow2(b);
    DivNat(t, m);
    q, r := t / m, t % m;
    DivNat(q, n);
    d, x := q / n, q % n;
    MulMono(0, x, m);
    MulMono(x, n - 1, m);
    MulMinus(n, 1, m);
    Distribute(d, n, x, m);
  }

  lemma Distribute(d: int, n: int, x: int, m: int)
    ensures (d * n + x) * m == d * (m * n) + x * m
  {
  }

  /** Jamming into an even divisor's remainder leaves the quotient alone. */
  lemma Jammed(q: nat, r: nat, d: nat, x: nat, h: nat)
    requires q == d * (2 * h) + x && x < 2 * h
    ensures x % 2 == q % 2
    ensures Jam(q, r) == d * (2 * h) + Jam(x, r) && Jam(x, r) < 2 * h
  {
    var e := d * h;
    assert d * (2 * h) == 2 * e;
  }

  lemma JamJam(q: nat, r: nat, d: nat, x: nat, y: nat, p: nat)
    requires y == Jam(x, r) && p > 0
    ensures x * p + r >= 0
    ensures Jam(d, y) == Jam(d, x * p + r)
  {
    MulMono(0, x, p);
    if x > 0 { MulMono(1, x, p); }
  }

  /** A sticky bit survives rounding as long as two more bits are rounded away. */
  lemma NearestEvenSticky(t: nat, a: nat, b: nat)
    requires b >= 2
    ensures NearestEven(Sticky(t, a), b) == NearestEven(t, a + b)
  {
    hide *;
    var q, r, d, x := TwoStage(t, a, b);
    var h, p := Pow2(b - 1), Pow2(a);
    Pow2Double(b);
    Pow2Double(b - 1);
    Jammed(q, r, d, x, h);
    StickyHalves(d, x, Jam(x, r), h, p, r);
    Pow2Halves(a, b);
    ByDivision(t, a, q, r);
    ByDivision(Jam(q, r), b, d, Jam(x, r));
    ByDivision(t, a + b, d, x * p + r);
  }

  lemma Pow2Halves(a: nat, b: nat)
    requires b >= 1
    ensures Pow2(a + b) == 2 * (Pow2(b - 1) * Pow2(a))
  {
    hide *;
    Pow2Double(a + b);
    Pow2Add(a, b - 1);
  }

  lemma StickyHalves(d: nat, x: nat, y: nat, h: nat, p: nat, r: nat)
    requires h % 2 == 0 && r < p
    requires y == Jam(x, r)
    ensures x * p + r >= 0 && h * p >= 0
    ensures Settle(d, y, 2 * h) == Settle(d, x * p + r, 2 * (h * p))
  {
    MulMono(0, x, p);
    MulMono(0, h, p);
    HalfCompare(x, h, p, r);
    var e, g := x * p + r, h * p;
    assert y < h <==> e < g;
    assert y == h <==> e == g;
    SettleSame(d, y, h, e, g);
  }

  lemma SettleSame(d: nat, x: nat, h: nat, y: nat, g: nat)
    requires x < h <==> y < g
    requires x == h <==> y == g
    ensures Settle(d, x, 2 * h) == Settle(d, y, 2 * g)
  {
  }

  lemma HalfCompare(x: nat, h: nat, p: nat, r: nat)
    requires r < p
    ensures x < h ==> x * p + r < h * p
    ensures x > h ==> x * p + r > h * p
    ensures x == h ==> x * p + r == h * p + r
  {
    if x < h { MulStrict(x, h, p); } else if x > h { MulStrict(h, x, p); }
  }

  /** Sticky truncation compares with an even bound as the exact value does. */
  lemma StickyBound(t: nat, k: nat, c: nat)
    requires c % 2 == 0
    ensures Sticky(t, k) >= c <==> t >= c * Pow2(k)
  {
    hide Pow2;
    var p := Pow2(k);
    DivNat(t, p);
    HalfCompare(t / p, c, p, t % p);
  }

  /** Shifting up before a sticky truncation just shortens it. */
  lemma StickyShifted(t: nat, a: nat, k: nat)
    ensures Sticky(t * Pow2(a), a + k) == Sticky(t, k)
    ensures Sticky(t * Pow2(a + k), a) == t * Pow2(k)
  {
    hide *;
    StickyExact(t, a);
    StickyCompose(t * Pow2(a), a, k);
    Pow2Add(a, k);
    MulAssoc(t, Pow2(k), Pow2(a));
    StickyExact(t * Pow2(k), a);
  }

  lemma MulAssoc(a: int, b: int, c: int)
    ensures a * (b * c) == (a * b) * c
    ensures a * (c * b) == (a * b) * c
  {
  }

  lemma MulMinus(a: int, b: int, p: int)
    ensures (a - b) * p == a * p - b * p
  {
  }

  lemma StickyExact(t: nat, a: nat)
    ensures Sticky(t * Pow2(a), a) == t
  {
    ByDivision(t * Pow2(a), a, t, 0);
  }

  /** Adding an even multiple before or after sticky truncation makes no difference. */
  lemma StickyAdd(m: nat, t: nat, k: nat)
    requires m % 2 == 0
    ensures Sticky(m * Pow2(k) + t, k) == m + Sticky(t, k)
  {
    hide *;
    var q, r := Divide(t, k);
    Collect(m, q, Pow2(k), r);
    ByDivision(t, k, q, r);
    ByDivision(m * Pow2(k) + t, k, m + q, r);
    JamAdd(m, q, r);
  }

  lemma Collect(m: int, q: int, p: int, r: int)
    ensures m * p + (q * p + r) == (m + q) * p + r
    ensures m * p - (q * p + r) == (m - q) * p - r
    ensures m * p - (q * p + r) == (m - q - 1) * p + (p - r)
  {
    MulMinus(m + q, q, p);
    MulMinus(m, q, p);
    MulMinus(m - q, 1, p);
  }

  lemma JamAdd(m: nat, q: nat, r: nat)
    requires m % 2 == 0
    ensures Jam(m + q, r) == m + Jam(q, r)
  {
  }

  lemma Divide(t: nat, k: nat) returns (q: nat, r: nat)
    ensures t == q * Pow2(k) + r && r < Pow2(k)
  {
    DivNat(t, Pow2(k));
    q, r := t / Pow2(k), t % Pow2(k);
  }

  /** Likewise for subtracting from an even multiple. */
  lemma StickySub(m: nat, t: nat, k: nat)
    requires m % 2 == 0 && t <= m * Pow2(k)
    ensures Sticky(t, k) <= m
    ensures Sticky(m * Pow2(k) - t, k) == m - Sticky(t, k)
  {
    hide *;
    var p := Pow2(k);
    var q, r := Divide(t, k);
    HalfCompare(q, m, p, r);
    Collect(m, q, p, r);
    ByDivision(t, k, q, r);
    JamSub(m, q, r, p);
    if r == 0 {
      ByDivision(m * p - t, k, m - q, 0);
    } else {
      ByDivision(m * p - t, k, m - q - 1, p - r);
    }
  }

  lemma JamSub(m: nat, q: nat, r: nat, p: nat)
    requires m % 2 == 0 && r < p && (q < m || (q == m && r == 0))
    ensures Jam(q, r) <= m
    ensures m - Jam(q, r) == if r == 0 then Jam(m - q, 0) else Jam(m - q - 1, p - r)
  {
  }
}
