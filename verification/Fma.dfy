/** math/fma.go: x * y + z with a single rounding, on finite non-zero operands. */
module Fma {
  import opened Bits
  import opened Rounding
  import opened Float64
  import opened WidePair

  /** `split`: sign, biased exponent and significand, a subnormal one shifted up
      until its leading bit is bit 52. */
  function Split(b: Pattern): (nat, int, nat) {
    var exp := And(Shr(b, 52), 0x7FF);
    var mantissa := And(b, FRAC - 1);
    if exp == 0 then
      var shift := Sub(LeadingZeros64(mantissa), 11);
      (Shr(b, 63), 1 - shift, Shl(mantissa, shift))
    else
      (Shr(b, 63), exp, Or(mantissa, Shl(1, 52)))
  }

  // ----- splitting

  /** A split operand is normalised and keeps its value. */
  lemma SplitValue(b: Pattern)
    requires Finite(b) && !IsZero(b)
    ensures var s := Split(b);
            && s.0 == SignBit(b)
            && -51 <= s.1 <= 2046
            && FRAC <= s.2 < 2 * FRAC
            && Dyadic(s.2, s.1 - 1075) == Dyadic(Mant(b), Exp(b))
  {
    hide Pow2, Dyadic, And, Shl, Shr, Or, LeadingZeros64, ExpField, Frac, SignBit;
    SplitFields(b);
    FieldBounds(b);
    var f := Frac(b);
    if ExpField(b) == 0 {
      SplitSubnormal(f);
    } else {
      OrImplicit(f);
    }
  }

  lemma FieldBounds(b: Pattern)
    ensures Frac(b) < FRAC && ExpField(b) < 2048
  {
  }

  lemma OrImplicit(f: nat)
    requires f < FRAC
    ensures Or(f, Shl(1, 52)) == FRAC + f
  {
    hide *;
    Pow2_52();
    OneShl(52);
    OrDisjoint(1, f, 52);
  }

  lemma SplitSubnormal(f: nat)
    requires 0 < f < FRAC
    ensures var shift := Sub(LeadingZeros64(f), 11);
            && 1 <= shift <= 52
            && FRAC <= Shl(f, shift) < 2 * FRAC
            && Dyadic(Shl(f, shift), 1 - shift - 1075) == Dyadic(f, -1074)
  {
    hide Pow2, Dyadic, Shl, LeadingZeros64, Sub;
    var l := LzRange(f);
    var shift: int := l - 11;
    SubWraps(l, 11);
    Pow2Add(63 - l, shift);
    Pow2Add(64 - l, shift);
    Pow2_52();
    Normalised(f, Pow2(63 - l), Pow2(64 - l), Pow2(shift));
    ShlIs(f, shift, 0, f * Pow2(shift));
    DyadicShift(f, -1074 - shift, shift);
  }

  lemma Normalised(f: nat, lo: nat, hi: nat, p: nat)
    requires lo <= f < hi && lo * p == FRAC && hi * p == 2 * FRAC && p > 0
    ensures FRAC <= f * p < 2 * FRAC
  {
    MulMono(lo, f, p);
    MulStrict(f, hi, p);
  }

  lemma LzRange(f: nat) returns (l: nat)
    requires 0 < f < FRAC
    ensures l == LeadingZeros64(f) && 12 <= l < 64
    ensures Pow2(63 - l) <= f < Pow2(64 - l)
  {
    l := LeadingZeros64(f);
    Pow2_52();
    hide Pow2;
    if l < 12 { Pow2Mono(52, 63 - l); assert false; }
  }

  // ----- magnitudes

  lemma ScaleUp(v: nat, lo: nat, hi: nat, k: nat)
    requires Pow2(lo) <= v < Pow2(hi)
    ensures Pow2(lo + k) <= v * Pow2(k) < Pow2(hi + k)
  {
    hide *;
    Pow2Add(lo, k);
    Pow2Add(hi, k);
    MulMono(Pow2(lo), v, Pow2(k));
    MulStrict(v, Pow2(hi), Pow2(k));
  }

  lemma ProductBounds(a: nat, b: nat, lo: nat, hi: nat)
    requires lo <= a < hi && lo <= b < hi
    ensures lo * lo <= a * b < hi * hi
  {
    MulMono(lo, a, lo);
    MulMono(lo, b, a);
    MulMono(a, hi, b);
    MulStrict(b, hi, hi);
  }

  /** Comparing the high word compares the wide number. */
  lemma HighWord(u1: nat, u2: Word, k: nat)
    ensures u1 < Pow2(k) <==> Wide((u1, u2)) < Pow2(64 + k)
  {
    hide Pow2;
    Pow2Add(64, k);
    Pow2_64();
    HalfCompare(u1, Pow2(k), WORD, u2);
  }

  // ----- the stages of FMA

  /** A full 127-bit significand, with room for a sticky bit. */
  predicate Full(m: nat) {
    Pow2(126) <= m < Pow2(127) && m % 2 == 0
  }

  lemma SmallShift(m: nat, n: nat)
    requires FRAC <= m < 2 * FRAC && n <= 11
    ensures Shl(m, n) == m * Pow2(n)
    ensures Pow2(52 + n) <= m * Pow2(n) < Pow2(53 + n) <= WORD
  {
    Pow2_52();
    hide Pow2, Shl;
    ScaleUp(m, 52, 53, n);
    Pow2Mono(53 + n, 64);
    Pow2_64();
    ShlIs(m, n, 0, m * Pow2(n));
  }

  /** The product, moved so that its leading bit is bit 126; and by how much. */
  function Product(xm: nat, ym: nat): (nat, nat, nat) {
    var p := Mul64(Shl(xm, 10), Shl(ym, 11));
    var is62zero := And(Shr(Not(p.0), 62), 1);
    var q := ShlPair(p.0, p.1, is62zero);
    (q.0, q.1, is62zero)
  }

  lemma ProductFits(xm: nat, ym: nat)
    requires FRAC <= xm < 2 * FRAC && FRAC <= ym < 2 * FRAC
    ensures var t := Shl(xm, 10) * Shl(ym, 11);
            && t == (xm * ym) * Pow2(21)
            && Pow2(125) <= t < Pow2(127)
  {
    hide Pow2, Shl;
    SmallShift(xm, 10);
    SmallShift(ym, 11);
    Pow2_52();
    Pow2Add(52, 52);
    Pow2Add(53, 53);
    ProductBounds(xm, ym, FRAC, 2 * FRAC);
    ScaleUp(xm * ym, 104, 106, 21);
    Pow2Add(10, 11);
    Rearrange(xm, Pow2(10), ym, Pow2(11), Pow2(21));
  }

  lemma Rearrange(x: int, a: int, y: int, b: int, c: int)
    requires a * b == c
    ensures (x * a) * (y * b) == (x * y) * c
  {
    MulAssoc(x, a, y * b);
    MulAssoc(y, a, b);
    MulAssoc(x, y, c);
    assert a * (y * b) == y * (a * b);
  }

  lemma TopBit(h: Word)
    requires h < Pow2(63)
    ensures And(Shr(Not(h), 62), 1) == if h < Pow2(62) then 1 else 0
  {
    Pow2_52();
    Pow2Double(63);
    assert Pow2(1) == 2;
    AndLow(Shr(Not(h), 62), 1);
    hide Pow2, And;
    assert Pow2(62) == 0x4000_0000_0000_0000;
    assert Shr(Not(h), 62) == Not(h) / 0x4000_0000_0000_0000;
  }

  lemma ProductIs(xm: nat, ym: nat)
    requires FRAC <= xm < 2 * FRAC && FRAC <= ym < 2 * FRAC
    ensures var p := Product(xm, ym);
            && p.0 < WORD && p.1 < WORD && p.2 <= 1
            && Wide((p.0, p.1)) == (xm * ym) * Pow2(21 + p.2)
            && Full(Wide((p.0, p.1)))
  {
    hide Pow2, Shl, Wide, ShlPair, And, Shr, Not, Full, Mul64;
    ProductFits(xm, ym);
    var m := Mul64(Shl(xm, 10), Shl(ym, 11));
    var t := Wide(m);
    HighWord(m.0, m.1, 63);
    HighWord(m.0, m.1, 62);
    TopBit(m.0);
    var z := And(Shr(Not(m.0), 62), 1);
    ByAtMostOne(t, z);
    ShiftFits(t, m.0, m.1, z);
    Pow2Add(21, z);
    MulAssoc(xm * ym, Pow2(21), Pow2(z));
    EvenMultiple(xm * ym, 21 + z);
    FullIs(t * Pow2(z));
  }

  lemma ByAtMostOne(t: nat, z: nat)
    requires z <= 1 && if z == 0 then Pow2(126) <= t < Pow2(127) else Pow2(125) <= t < Pow2(126)
    ensures Pow2(126) <= t * Pow2(z) < Pow2(127)
  {
    hide *;
    if z == 0 { PowZero(); } else { ScaleUp(t, 125, 126, 1); }
  }

  lemma EvenMultiple(v: nat, k: nat)
    requires k >= 1
    ensures (v * Pow2(k)) % 2 == 0
  {
    hide *;
    Pow2Double(k);
    MulAssoc(v, 2, Pow2(k - 1));
    assert v * Pow2(k) == 2 * (v * Pow2(k - 1));
  }

  /** Moving the leading bit to bit 126 loses nothing. */
  lemma ShiftFits(t: nat, u1: Word, u2: Word, z: Word)
    requires t == Wide((u1, u2)) && Pow2(126) <= t * Pow2(z) < Pow2(127)
    ensures ShlPair(u1, u2, z).0 < WORD && ShlPair(u1, u2, z).1 < WORD
    ensures Wide(ShlPair(u1, u2, z)) == t * Pow2(z)
  {
    ShlPairShifts(u1, u2, z);
    hide *;
    Pow2_128();
    Pow2Mono(127, 128);
    DivModUnique(t * Pow2(z), WORD * WORD, 0, t * Pow2(z));
  }

  /** `bits.Add64` on both words, then one position down or none. */
  function AddAligned(pe: int, p: (nat, nat), z: (nat, nat)): (int, nat)
    requires p.0 < WORD && p.1 < WORD && z.0 < WORD && z.1 < WORD
  {
    var (pm2, c) := Add64(p.1, z.1, 0);
    var (pm1, _) := Add64(p.0, z.0, c);
    TopBitOf(pm1);
    (pe - Shr(Not(pm1), 63), ShrCompress(pm1, pm2, 64 + Shr(pm1, 63)).1)
  }

  /** `bits.Sub64` on both words, then the leading bit moved to bit 62. */
  function SubAligned(pe: int, p: (nat, nat), z: (nat, nat)): (int, nat)
    requires p.0 < WORD && p.1 < WORD && z.0 < WORD && z.1 < WORD
  {
    var (pm2, c) := Sub64(p.1, z.1, 0);
    var (pm1, _) := Sub64(p.0, z.0, c);
    var nz := Lz(pm1, pm2);
    var w := ShlPair(pm1, pm2, Sub(nz, 1));
    (pe - nz, Or(w.0, Nonzero(w.1)))
  }

  /** The last lines of FMA: overflow, the subnormal shift, and the final rounding
      of the 63-bit m to 53 bits. */
  function Pack(ps: nat, pe: int, m: nat): nat
    requires ps <= 1 && m < SIGN
  {
    if pe > 1022 + BIAS || (pe == 1022 + BIAS && Shr(m + Shl(1, 9), 63) == 1) then
      Or(Shl(ps, 63), INF)
    else
      var n := if pe < 0 then -pe else 0;
      var m1 := if pe < 0 then Or(Shr(m, n), Nonzero(And(m, Ones(n)))) else m;
      var e1 := if pe < 0 then 0 else pe;
      var m2 := RoundBits(m1);
      var e2 := if Nonzero(m2) == 1 then e1 else 0;
      Shl(ps, 63) + e2 * FRAC + m2
  }

  /** `((m + 1<<9) >> 10) & ^zero((m&(1<<10-1))^1<<9)` */
  function RoundBits(m: nat): nat {
    And(Shr(m + Shl(1, 9), 10), Not(Zero(Xor(And(m, Ones(10)), Shl(1, 9)))))
  }

  // ----- what each stage preserves

  ghost function Signed(s: nat, x: real): real { if s == 1 then -x else x }

  /** v is exactly the wide significand u at exponent e with sign s. */
  ghost predicate Holds(v: real, s: nat, e: int, u: (nat, nat)) {
    && s <= 1
    && u.0 < WORD && u.1 < WORD
    && -1200 <= e <= 4200
    && Full(Wide(u))
    && v == Signed(s, Dyadic(Wide(u), e - 1149))
  }

  lemma ProductStage(xb: Pattern, yb: Pattern)
    requires Finite(xb) && !IsZero(xb) && Finite(yb) && !IsZero(yb)
    ensures Split(xb).0 <= 1 && Split(yb).0 <= 1
    ensures FRAC <= Split(xb).2 < 2 * FRAC && FRAC <= Split(yb).2 < 2 * FRAC
    ensures var (xs, xe, xm) := Split(xb); var (ys, ye, ym) := Split(yb); var t := Product(xm, ym);
            Holds(Value(xb) * Value(yb), Xor(xs, ys), xe + ye - BIAS + 1 - t.2, (t.0, t.1))
  {
    hide Pow2, Dyadic, Wide, Split, Product, Full, SignBit, ExpField, Frac, Mant, Exp;
    SplitValue(xb);
    SplitValue(yb);
    var (xs, xe, xm) := Split(xb);
    var (ys, ye, ym) := Split(yb);
    ProductIs(xm, ym);
    var t := Product(xm, ym);
    DyadicProduct(xm, xe - 1075, ym, ye - 1075);
    DyadicShift(xm * ym, xe + ye - 2171 - t.2, 21 + t.2);
    assert xe + ye - 2171 - t.2 + (21 + t.2) == xe - 1075 + (ye - 1075);
    var x, y := Dyadic(xm, xe - 1075), Dyadic(ym, ye - 1075);
    SignProduct(xs, x, ys, y);
    assert xe + ye - BIAS + 1 - t.2 - 1149 == xe + ye - 2171 - t.2;
  }

  lemma SignProduct(s: nat, x: real, t: nat, y: real)
    requires s <= 1 && t <= 1
    ensures Xor(s, t) <= 1
    ensures Signed(s, x) * Signed(t, y) == Signed(Xor(s, t), x * y)
  {
    assert Xor(s, t) == if s == t then 0 else 1;
    assert (-x) * (-y) == x * y;
    assert (-x) * y == -(x * y);
    assert x * (-y) == -(x * y);
  }

  lemma AddendStage(zb: Pattern)
    requires Finite(zb) && !IsZero(zb)
    ensures var (zs, ze, zm) := Split(zb); Holds(Value(zb), zs, ze, (Shl(zm, 10), 0))
  {
    hide Pow2, Dyadic, Wide, Split, Full, SignBit, ExpField, Frac, Mant, Exp, Shl;
    SplitValue(zb);
    var (zs, ze, zm) := Split(zb);
    SmallShift(zm, 10);
    WideOf(zm * Pow2(10), 0);
    Pow2Add(10, 64);
    Pow2_64();
    MulAssoc(zm, Pow2(10), WORD);
    Pow2_52();
    ScaleUp(zm, 52, 53, 74);
    Pow2Mono(63, 64);
    EvenMultiple(zm, 74);
    DyadicShift(zm, ze - 1149, 74);
    FullIs(zm * Pow2(74));
  }

  lemma FullIs(m: nat)
    requires Pow2(126) <= m < Pow2(127) && m % 2 == 0
    ensures Full(m)
  {
  }

  /** The high words decide the comparison once the lower one has no low word. */
  lemma CompareHigh(a: (nat, nat), b: (nat, nat))
    requires a.0 < WORD && a.1 < WORD && b.0 < WORD && b.1 < WORD
    ensures a.0 < b.0 ==> Wide(a) < Wide(b)
    ensures a.0 >= b.0 && b.1 == 0 ==> Wide(a) >= Wide(b)
    ensures a == b <==> Wide(a) == Wide(b)
  {
    if a.0 < b.0 {
      MulStrict(a.0, b.0, WORD);
    } else {
      MulMono(b.0, a.0, WORD);
      if a.0 > b.0 { MulStrict(b.0, a.0, WORD); }
    }
  }

  lemma Cancelled(v1: real, v2: real, ps: nat, pe: int, zs: nat, ze: int, p: (nat, nat))
    requires Holds(v1, ps, pe, p) && Holds(v2, zs, ze, p) && ps != zs && pe == ze
    ensures RoundedTo(v1 + v2, 0)
  {
    hide Dyadic, Wide, Full;
    var v := v1 + v2;
    DyadicSign(0, -1074);
    forall wm: nat, wq: int | Candidate(wm, wq) ensures AtLeastAsNear(RAbs(v), 0, -1074, Dyadic(wm, wq)) {
    }
    assert NearestTo(RAbs(v), 0, -1074);
    assert Encode(0, -1074) == 0;
  }

  /** The exact aligned sum or difference. */
  function Exact(ps: nat, zs: nat, p: nat, z: nat, d: nat): int {
    if ps == zs then p * Pow2(d) + z else p * Pow2(d) - z
  }

  lemma AlignedValue(v1: real, v2: real, ps: nat, pe: int, p: (nat, nat), zs: nat, ze: int, z: (nat, nat))
    requires Holds(v1, ps, pe, p) && Holds(v2, zs, ze, z) && pe >= ze
    ensures v1 + v2 == Signed(ps, Dyadic(Exact(ps, zs, Wide(p), Wide(z), pe - ze), ze - 1149))
  {
    hide Pow2, Dyadic, Wide, Full;
    var u := ze - 1149;
    var pp := Wide(p) * Pow2(pe - ze);
    DyadicShift(Wide(p), u, pe - ze);
    DyadicSum(pp, Wide(z), u);
    DyadicCompare(Wide(z), pp, u);
  }

  lemma ExactPositive(ps: nat, zs: nat, p: nat, z: nat, d: nat)
    requires Full(p) && Full(z) && (d == 0 && ps != zs ==> p > z)
    ensures Exact(ps, zs, p, z, d) > 0
  {
    hide Pow2;
    if d == 0 {
      PowZero();
    } else {
      Pow2Double(127);
      Pow2Mono(1, d);
      assert Pow2(1) == 2 by { PowOne(); }
      MulMono(2, Pow2(d), p);
    }
  }

  // ----- normalising the sum

  lemma AddWords(p: (nat, nat), z: (nat, nat))
    requires p.0 < WORD && p.1 < WORD && z.0 < WORD && z.1 < WORD
    requires Wide(p) + Wide(z) < WORD * WORD
    ensures var (pm2, c) := Add64(p.1, z.1, 0);
            var (pm1, _) := Add64(p.0, z.0, c);
            Wide((pm1, pm2)) == Wide(p) + Wide(z)
  {
    var (pm2, c) := Add64(p.1, z.1, 0);
    var (pm1, d) := Add64(p.0, z.0, c);
    hide Add64;
    if d == 1 { MulMono(WORD, p.0 + z.0 + c, WORD); assert false; }
  }

  lemma TopBitOf(h: Word)
    ensures Shr(h, 63) == if h < Pow2(63) then 0 else 1
    ensures Shr(Not(h), 63) == 1 - Shr(h, 63)
  {
    Pow2_52();
    hide Pow2;
    assert Shr(h, 63) == h / SIGN;
    assert Shr(Not(h), 63) == Not(h) / SIGN;
  }

  /** Cutting a wide number down to its top 63 bits. */
  lemma TopBits(s: nat, u1: Word, u2: Word, h: nat)
    requires Wide((u1, u2)) == s && 64 <= h <= 65 && Pow2(62 + h) <= s < Pow2(63 + h)
    ensures ShrCompress(u1, u2, h).1 == Sticky(s, h)
    ensures Pow2(62) <= Sticky(s, h) < Pow2(63)
  {
    StickyRange(s, h);
    ShrCompressIsSticky(u1, u2, h);
    Pow2Mono(63, 64);
    Pow2_64();
    hide *;
    var r := ShrCompress(u1, u2, h);
    WideOf(r.0, r.1);
    if r.0 > 0 { MulMono(1, r.0, WORD); assert false; }
  }

  lemma StickyRange(s: nat, h: nat)
    requires Pow2(62 + h) <= s < Pow2(63 + h)
    ensures Pow2(62) <= Sticky(s, h) < Pow2(63)
  {
    hide *;
    Pow2Add(62, h);
    Pow2Add(63, h);
    Pow2Double(62);
    Pow2Double(63);
    StickyBound(s, h, Pow2(62));
    StickyBound(s, h, Pow2(63));
  }

  lemma StickyBelow(z: nat, d: nat, k: nat)
    requires k >= 1 && z < Pow2(k + d)
    ensures Sticky(z, d) < Pow2(k)
  {
    hide *;
    Pow2Add(k, d);
    Pow2Double(k);
    StickyBound(z, d, Pow2(k));
  }

  /** The aligned sum is the sticky form of the exact one, and does not carry out. */
  lemma AlignedSum(p: nat, z: nat, a: nat, d: nat, t: nat)
    requires Full(p) && Full(z) && a == Sticky(z, d) && t == p * Pow2(d) + z
    ensures p + a == Sticky(t, d)
    ensures Pow2(126) <= p + a < Pow2(128)
  {
    hide Pow2, Sticky;
    StickyAdd(p, z, d);
    Pow2Mono(127, 127 + d);
    StickyBelow(z, d, 127);
    Pow2Double(128);
  }

  lemma AddStage(pe: int, p: (nat, nat), z: (nat, nat), al: (nat, nat), d: nat, t: nat)
    requires p.0 < WORD && p.1 < WORD && al.0 < WORD && al.1 < WORD
    requires Full(Wide(p)) && Full(Wide(z)) && Wide(al) == Sticky(Wide(z), d)
    requires t == Wide(p) * Pow2(d) + Wide(z)
    ensures var r := AddAligned(pe, p, al);
            && pe - 1 <= r.0 <= pe
            && Pow2(62) <= r.1 < Pow2(63)
            && r.1 == Sticky(ShiftUp(t, 64), r.0 - pe + d + 129)
  {
    hide Pow2, Wide, ShrCompress, Shr, Not, Sticky, ShiftUp, Full, Add64;
    var s := Wide(p) + Wide(al);
    AlignedSum(Wide(p), Wide(z), Wide(al), d, t);
    Pow2_128();
    AddWords(p, al);
    var (pm2, c) := Add64(p.1, al.1, 0);
    var (pm1, _) := Add64(p.0, al.0, c);
    TopBitOf(pm1);
    HighWord(pm1, pm2, 63);
    var h := 64 + Shr(pm1, 63);
    TopBits(s, pm1, pm2, h);
    ShiftOfSticky(t, d, h);
  }

  lemma ShiftOfSticky(t: nat, d: nat, h: nat)
    ensures Sticky(Sticky(t, d), h) == Sticky(ShiftUp(t, 64), 64 + (d + h))
  {
    hide *;
    StickyCompose(t, d, h);
    StickyShifted(t, 64, d + h);
  }

  // ----- normalising the difference

  lemma SubWords(p: (nat, nat), z: (nat, nat))
    requires p.0 < WORD && p.1 < WORD && z.0 < WORD && z.1 < WORD
    requires Wide(p) >= Wide(z)
    ensures var (pm2, c) := Sub64(p.1, z.1, 0);
            var (pm1, _) := Sub64(p.0, z.0, c);
            Wide((pm1, pm2)) == Wide(p) - Wide(z)
  {
    var (pm2, c) := Sub64(p.1, z.1, 0);
    var (pm1, d) := Sub64(p.0, z.0, c);
    hide Sub64;
    if d == 1 { MulMono(p.0 - z.0 - c, -1, WORD); assert false; }
  }

  lemma OrLow(w: (nat, nat), x: nat)
    requires w.0 < WORD && w.1 < WORD && Wide(w) == x
    ensures Or(w.0, Nonzero(w.1)) == Sticky(x, 64)
  {
    hide Pow2, Or, Sticky;
    Pow2_64();
    OrBit(w.0, Nonzero(w.1));
    JamWord(w.0, w.1);
    ByDivision(x, 64, w.0, w.1);
  }

  /** The difference is lost to alignment only where little cancels. */
  lemma FewLeadingZeros(p: nat, z: nat, d: nat, nz: nat)
    requires Full(p) && Full(z) && d >= 2
    requires nz < 128 && p - Sticky(z, d) < Pow2(128 - nz)
    ensures nz <= 65
  {
    hide Pow2, Sticky;
    Pow2Mono(127, 125 + d);
    StickyBelow(z, d, 125);
    Pow2Double(126);
    if nz > 65 { Pow2Mono(128 - nz, 125); assert false; }
  }

  /** With at most 65 leading zeros, normalising is a sticky right shift of the
      exact difference. */
  lemma ShortNormalise(t: nat, d: nat, nz: nat)
    requires 1 <= nz <= 65
    ensures Sticky(ShiftUp(Sticky(t, d), nz - 1), 64) == Sticky(ShiftUp(t, 64), d + 129 - nz)
  {
    hide *;
    StickyShifted(Sticky(t, d), nz - 1, 65 - nz);
    assert nz - 1 + (65 - nz) == 64;
    ShiftOfSticky(t, d, 65 - nz);
    assert 64 + (d + (65 - nz)) == d + 129 - nz;
  }

  /** When alignment lost nothing, any left shift is exact. */
  lemma ExactNormalise(y: nat, d: nat, nz: nat)
    requires 1 <= nz <= 128
    ensures Sticky(ShiftUp(y, d), d) == y
    ensures Sticky(ShiftUp(y, nz - 1), 64) == Sticky(ShiftUp(ShiftUp(y, d), 64), d + 129 - nz)
  {
    hide *;
    StickyExact(y, d);
    var x, t := ShiftUp(y, nz - 1), ShiftUp(ShiftUp(y, d), 64);
    StickyShifted(x, d + 64, 64);
    StickyShifted(t, nz - 1, d + 129 - nz);
    assert d + 64 + 64 == nz - 1 + (d + 129 - nz);
    Pow2Add(d, 64);
    Shuffle(y, Pow2(nz - 1), Pow2(d), Pow2(64), Pow2(d + 64));
  }

  lemma Shuffle(y: int, a: int, b: int, c: int, bc: int)
    requires b * c == bc
    ensures (y * a) * bc == ((y * b) * c) * a
  {
    MulAssoc(y, b, c);
    MulAssoc(y, a, bc);
  }

  lemma SubStage(pe: int, p: (nat, nat), z: (nat, nat), al: (nat, nat), d: nat, t: nat)
    requires p.0 < WORD && p.1 < WORD && al.0 < WORD && al.1 < WORD
    requires Full(Wide(p)) && Full(Wide(z)) && Wide(al) == Sticky(Wide(z), d)
    requires t == Wide(p) * Pow2(d) - Wide(z) && t > 0
    ensures var r := SubAligned(pe, p, al);
            && pe - 128 <= r.0 <= pe
            && Pow2(62) <= r.1 < Pow2(63)
            && r.1 == Sticky(ShiftUp(t, 64), r.0 - pe + d + 129)
  {
    hide Pow2, Wide, ShlPair, Sticky, Lz, Or, Sub, ShiftUp, Full, Sub64;
    AlignedDifference(Wide(p), Wide(z), d, t);
    var y := Wide(p) - Wide(al);
    SubWords(p, al);
    var (pm2, c) := Sub64(p.1, al.1, 0);
    var (pm1, _) := Sub64(p.0, al.0, c);
    var nz := Lz(pm1, pm2);
    NormaliseDifference(y, pm1, pm2);
    SubSticky(Wide(p), Wide(z), d, t, y, nz);
  }

  lemma AlignedDifference(p: nat, z: nat, d: nat, t: nat)
    requires Full(p) && Full(z) && t == p * Pow2(d) - z && t > 0
    ensures Sticky(z, d) <= p && p - Sticky(z, d) == Sticky(t, d)
    ensures 0 < Sticky(t, d) < Pow2(127)
  {
    hide Pow2, Sticky;
    StickySub(p, z, d);
    StickyPositive(t, d);
  }

  /** Shifting the leading bit to bit 126 and keeping the high word. */
  lemma NormaliseDifference(y: nat, u1: Word, u2: Word)
    requires Wide((u1, u2)) == y && 0 < y < Pow2(127)
    ensures var nz := Lz(u1, u2);
            && 1 <= nz < 128 && Sub(nz, 1) == nz - 1 && y < Pow2(128 - nz)
            && var w := ShlPair(u1, u2, nz - 1);
            && w.0 < WORD && w.1 < WORD
            && Or(w.0, Nonzero(w.1)) == Sticky(ShiftUp(y, nz - 1), 64)
            && Pow2(62) <= Or(w.0, Nonzero(w.1)) < Pow2(63)
  {
    hide Pow2, Wide, ShlPair, Sticky, Lz, Or, Sub, ShiftUp;
    LzCounts(u1, u2);
    var nz := Lz(u1, u2);
    if nz == 0 { assert false; }
    SubWraps(nz, 1);
    ScaleUp(y, 127 - nz, 128 - nz, nz - 1);
    ShiftFits(y, u1, u2, nz - 1);
    OrLow(ShlPair(u1, u2, nz - 1), ShiftUp(y, nz - 1));
    StickyRange(ShiftUp(y, nz - 1), 64);
  }

  lemma StickyPositive(t: nat, d: nat)
    requires t > 0
    ensures Sticky(t, d) > 0
  {
    hide Pow2;
    var q, r := Divide(t, d);
    ByDivision(t, d, q, r);
  }

  lemma SubSticky(p: nat, z: nat, d: nat, t: nat, y: nat, nz: nat)
    requires Full(p) && Full(z) && t == p * Pow2(d) - z && t > 0 && y == Sticky(t, d) == p - Sticky(z, d)
    requires 1 <= nz < 128 && y < Pow2(128 - nz)
    ensures Sticky(ShiftUp(y, nz - 1), 64) == Sticky(ShiftUp(t, 64), d + 129 - nz)
  {
    if d >= 2 {
      hide Pow2, Sticky, ShiftUp;
      FewLeadingZeros(p, z, d, nz);
      ShortNormalise(t, d, nz);
    } else {
      var e := HalfEven(p, z, d, t);
      hide *;
      ExactNormalise(e, d, nz);
    }
  }

  lemma HalfEven(p: nat, z: nat, d: nat, t: nat) returns (e: nat)
    requires d <= 1 && z % 2 == 0 && t == p * Pow2(d) - z
    ensures t == ShiftUp(e, d)
  {
    assert Pow2(0) == 1 && Pow2(1) == 2;
    e := if d == 0 then t else t / 2;
  }

  // ----- rounding and packing

  lemma RoundBitsIsNearestEven(m: nat)
    requires m < SIGN
    ensures RoundBits(m) == NearestEven(m, 10)
  {
    hide And, Xor, Shl, Shr, Ones, Pow2, NearestEven, Zero;
    var q, r := m / 1024, m % 1024;
    var w := (m + 512) / 1024;
    assert w == if r < 512 then q else q + 1;
    Pow2_10();
    OneShl(9);
    AndOnes(m, 10);
    ShrIs(m + 512, 10, w, (m + 512) % 1024);
    XorZeroIff(r, 512);
    ByDivision(m, 10, q, r);
    assert Zero(Xor(r, 512)) == if r == 512 then 1 else 0 by { ZeroIs(Xor(r, 512)); }
    AndAll(w);
    AndClearBit0(w);
  }

  lemma ZeroIs(x: nat)
    ensures Zero(x) == 1 <==> x == 0
  {
  }

  lemma AndAll(w: Word)
    ensures And(w, WORD - 1) == w
  {
    hide And, Pow2;
    Pow2_64();
    AndLow(w, 64);
  }

  lemma Pow2_10()
    ensures Pow2(10) == 1024 && Pow2(9) == 512
  {
  }

  /** The jammed right shift of a word, for any count. */
  lemma ShiftDown(m: Word, n: Word)
    ensures Or(Shr(m, n), Nonzero(And(m, Ones(n)))) == Sticky(m, n)
  {
    AndOnes(m, n);
    var q, r := Divide(m, n);
    hide Pow2, And, Ones, Or;
    OrBit(Shr(m, n), Nonzero(And(m, Ones(n))));
    if n >= 64 {
      Pow2Mono(64, n);
      Pow2_64();
      ByDivision(m, n, 0, m);
    } else {
      ShrIs(m, n, q, r);
      DivModUnique(m, Pow2(n), q, r);
      ByDivision(m, n, q, r);
    }
  }

  lemma PackRounds(ps: nat, pe: int, m: nat, t: nat, u: int, k: nat, v: real)
    requires ps <= 1 && t > 0 && -2000 <= pe <= 5000
    requires m == Sticky(t, k) && k + u == pe - 1084 && Pow2(62) <= m < Pow2(63)
    requires v == Signed(ps, Dyadic(t, u))
    ensures m < SIGN && Pack(ps, pe, m) < WORD
    ensures RoundedTo(v, Pack(ps, pe, m))
  {
    hide *;
    Pow2_52();
    assert m < SIGN < WORD && 5000 < WORD by { ConstantOrder(); }
    if pe < 0 {
      var n: int := -pe;
      ShiftDown(m, n);
      StickyCompose(t, k, n);
      SubnormalBelow(m, n);
      var m1 := Sticky(m, n);
      FinalRounding(m1, 0, t, u, k + n);
      PackSubnormal(ps, pe, m, m1);
      PackedIsRounded(ps, v, t, u, RoundBits(m1), 0);
    } else {
      FinalRounding(m, pe, t, u, k);
      PackNormal(ps, pe, m);
      PackedIsRounded(ps, v, t, u, RoundBits(m), pe);
    }
  }

  lemma ConstantOrder()
    ensures 5000 < SIGN < WORD
  {
  }

  lemma SubnormalBelow(m: nat, n: nat)
    requires m < Pow2(63)
    ensures Sticky(m, n) < Pow2(63)
  {
    hide *;
    Pow2Mono(63, 63 + n);
    StickyBelow(m, n, 63);
  }

  /** Rounding the sticky m at bit 10 rounds the exact t correctly. */
  lemma FinalRounding(m: nat, e: nat, t: nat, u: int, k: nat)
    requires m == Sticky(t, k) && k + u == e - 1084
    requires m < Pow2(63) && (e > 0 ==> Pow2(62) <= m)
    ensures m < SIGN
    ensures RoundBits(m) == NearestEven(m, 10)
    ensures NearestTo(Dyadic(t, u), RoundBits(m), e - 1074)
  {
    hide NearestTo, RoundBits, Pow2, Dyadic, Sticky, NearestEven;
    Pow2_52();
    RoundBitsIsNearestEven(m);
    NearestEvenSticky(t, k, 10);
    Pow2Double(62);
    Pow2Double(63);
    StickyBound(t, k, Pow2(62));
    StickyBound(t, k, Pow2(63));
    Pow2Add(52, 10);
    Pow2Add(53, 10);
    Pow2Add(10, k);
    MulAssoc(FRAC, Pow2(10), Pow2(k));
    MulAssoc(2 * FRAC, Pow2(10), Pow2(k));
    IntegerRounding(t, u, k + 10);
  }

  lemma Pow2_62()
    ensures Pow2(62) == 0x4000_0000_0000_0000
  {
    hide Pow2;
    Pow2_52();
    Pow2Double(63);
  }

  /** A rounded word in terms of its quotient and remainder by 1024. */
  lemma RoundBitsCases(m: nat)
    requires m < SIGN
    ensures RoundBits(m) == Settle(m / 1024, m % 1024, 1024)
    ensures RoundBits(m) <= 2 * FRAC
    ensures m >= Pow2(62) ==> RoundBits(m) >= FRAC
    ensures m + 512 >= SIGN <==> RoundBits(m) == 2 * FRAC
  {
    hide RoundBits, Pow2;
    RoundBitsIsNearestEven(m);
    Pow2_10();
    Pow2_62();
    ByDivision(m, 10, m / 1024, m % 1024);
  }

  /** Which of the two outcomes Pack takes is decided by the encoded result. */
  lemma Overflows(pe: int, m: nat)
    requires pe >= 0 && m < SIGN && (pe > 0 ==> Pow2(62) <= m)
    ensures pe > 1022 + BIAS || (pe == 1022 + BIAS && Shr(m + Shl(1, 9), 63) == 1) <==> pe * FRAC + RoundBits(m) >= INF
  {
    hide RoundBits, Pow2, Shr, Shl;
    RoundBitsCases(m);
    Pow2_10();
    OneShl(9);
    Pow2_52();
    ShrIs(m + 512, 63, (m + 512) / SIGN, (m + 512) % SIGN);
  }

  lemma PackSubnormal(ps: nat, pe: int, m: nat, m1: nat)
    requires ps <= 1 && pe < 0 && m < SIGN && m1 < SIGN
    requires Or(Shr(m, -pe), Nonzero(And(m, Ones(-pe)))) == m1
    ensures Pack(ps, pe, m) == ps * SIGN + RoundBits(m1)
    ensures RoundBits(m1) < INF
  {
    hide RoundBits, Pow2, Or, Shl, Shr, And, Ones, Nonzero;
    SignShl(ps);
    RoundBitsCases(m1);
  }

  lemma SignShl(ps: nat)
    requires ps <= 1
    ensures Shl(ps, 63) == ps * SIGN
    ensures Or(Shl(ps, 63), INF) == ps * SIGN + INF
  {
    hide Pow2, Or, Shl;
    Pow2_52();
    ShlIs(ps, 63, 0, ps * SIGN);
    OrDisjoint(ps, INF, 63);
  }

  lemma PackNormal(ps: nat, pe: int, m: nat)
    requires ps <= 1 && pe >= 0 && m < SIGN && (pe > 0 ==> Pow2(62) <= m)
    ensures Pack(ps, pe, m) == ps * SIGN + (if pe * FRAC + RoundBits(m) >= INF then INF else pe * FRAC + RoundBits(m))
  {
    hide RoundBits, Pow2, Or, Shl, Shr, And, Nonzero;
    SignShl(ps);
    Overflows(pe, m);
    RoundBitsCases(m);
    NonzeroIs(RoundBits(m));
  }

  lemma NonzeroIs(x: nat)
    ensures Nonzero(x) == 1 <==> x != 0
  {
  }

  lemma PackedIsRounded(ps: nat, v: real, t: nat, u: int, m: nat, e: nat)
    requires ps <= 1 && t > 0 && v == Signed(ps, Dyadic(t, u)) && NearestTo(Dyadic(t, u), m, e - 1074)
    ensures var r := ps * SIGN + (if e * FRAC + m >= INF then INF else e * FRAC + m);
            r < WORD && RoundedTo(v, r)
  {
    hide Dyadic, NearestTo;
    DyadicSign(t, u);
    assert Encode(m, e - 1074) == e * FRAC + m;
    assert NearestTo(RAbs(v), m, e - 1074);
  }

  // ----- putting the stages together

  lemma Combine(v1: real, v2: real, ps: nat, pe: int, p: (nat, nat), zs: nat, ze: int, z: (nat, nat))
    requires Holds(v1, ps, pe, p) && Holds(v2, zs, ze, z)
    requires pe >= ze && (pe == ze ==> Wide(p) >= Wide(z))
    requires !(ps != zs && pe == ze && p == z)
    ensures pe - ze < WORD
    ensures var al := ShrCompress(z.0, z.1, pe - ze);
            && al.0 < WORD && al.1 < WORD
            && var res := if ps == zs then AddAligned(pe, p, al) else SubAligned(pe, p, al);
            && res.1 < SIGN
            && Pack(ps, res.0, res.1) < WORD
            && RoundedTo(v1 + v2, Pack(ps, res.0, res.1))
  {
    hide RoundedTo, Pow2, Wide, Dyadic, Full, ShrCompress, AddAligned, SubAligned, Pack, Sticky, ShiftUp;
    var d := pe - ze;
    CompareHigh(p, z);
    ShrCompressIsSticky(z.0, z.1, d);
    var al := ShrCompress(z.0, z.1, d);
    AlignedValue(v1, v2, ps, pe, p, zs, ze, z);
    ExactPositive(ps, zs, Wide(p), Wide(z), d);
    var t := Exact(ps, zs, Wide(p), Wide(z), d);
    var res := if ps == zs then AddAligned(pe, p, al) else SubAligned(pe, p, al);
    if ps == zs {
      AddStage(pe, p, z, al, d, t);
    } else {
      SubStage(pe, p, z, al, d, t);
    }
    DyadicShift(t, ze - 1213, 64);
    PackRounds(ps, res.0, res.1, ShiftUp(t, 64), ze - 1213, res.0 - ze + 129, v1 + v2);
  }

  /** FMA for finite non-zero operands: the exact x * y + z, rounded once. */
  method FMA(xb: Pattern, yb: Pattern, zb: Pattern) returns (r: Pattern)
    requires Finite(xb) && !IsZero(xb) && Finite(yb) && !IsZero(yb) && Finite(zb) && !IsZero(zb)
    ensures RoundedTo(Value(xb) * Value(yb) + Value(zb), r)
  {
    hide RoundedTo, Pow2, Wide, Dyadic, Full, ShrCompress, AddAligned, SubAligned, Pack, Split, Product, Value, Xor,
        IsZero, Finite, Mant, Exp, Shl;
    SplitValue(xb);
    SplitValue(yb);
    SplitValue(zb);
    var (xs, xe, xm) := Split(xb);
    var (ys, ye, ym) := Split(yb);
    var (zs, ze, zm) := Split(zb);

    // p = x * y: the exponent still counts the implicit bit
    var ps, pe := Xor(xs, ys), xe + ye - BIAS + 1;
    var product := Product(xm, ym);
    var p, z := (product.0, product.1), (Shl(zm, 10), 0);
    pe := pe - product.2;
    ghost var v1, v2 := Value(xb) * Value(yb), Value(zb);
    ProductStage(xb, yb);
    AddendStage(zb);
    CompareHigh(p, z);
    CompareHigh(z, p);

    // swap so that |p| >= |z|
    if pe < ze || (pe == ze && p.0 < z.0) {
      ps, pe, p, zs, ze, z := zs, ze, z, ps, pe, p;
      v1, v2 := v2, v1;
    }
    if ps != zs && pe == ze && p == z {
      Cancelled(v1, v2, ps, pe, zs, ze, p);
      return 0;
    }
    Combine(v1, v2, ps, pe, p, zs, ze, z);
    var aligned := ShrCompress(z.0, z.1, pe - ze);
    var res := if ps == zs then AddAligned(pe, p, aligned) else SubAligned(pe, p, aligned);
    r := Pack(ps, res.0, res.1);
  }
}
