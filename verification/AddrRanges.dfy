/** The policy table and the scopes of net/addrselect.go by address range, and the
    comparison by the rules of section 6 of RFC 6724. */
module AddrRanges {

  import opened Common
  import opened AddrSelect

  // ----- ranges

  /** b lies in prefix/bits. */
  ghost predicate InRange(b: seq<Byte>, prefix: seq<Byte>, bits: nat) {
    bits <= 8 * |b| && bits <= 8 * |prefix| && forall k: nat :: k < bits ==> SameBit(b, prefix, k)
  }

  /** Bits i to i + j of both, the first ones of byte c, agree exactly if the bytes do
      without their other bits. */
  lemma FirstBits(b: seq<Byte>, p: seq<Byte>, c: nat, j: nat)
    requires c < |b| && c < |p| && j <= 8
    ensures (forall k: nat :: 8 * c <= k < 8 * c + j ==> SameBit(b, p, k)) <==>
            Halved(b[c], 8 - j) == Halved(p[c], 8 - j)
  {
    hide Halved;
    if forall k: nat :: 8 * c <= k < 8 * c + j ==> SameBit(b, p, k) {
      HalvedAway(b[c]);
      HalvedAway(p[c]);
      forall i | 8 - j <= i < 8 ensures Halved(b[c], i) % 2 == Halved(p[c], i) % 2 {
        assert SameBit(b, p, 8 * c + (7 - i));
        BitOfByte(b, p, c, i);
      }
      HalvedUp(b[c], p[c], 8 - j);
    }
    if Halved(b[c], 8 - j) == Halved(p[c], 8 - j) {
      forall k: nat | 8 * c <= k < 8 * c + j ensures SameBit(b, p, k) {
        assert k / 8 == c && 7 - k % 8 >= 8 - j;
        HalvedSame(b[c], p[c], 8 - j, 7 - k % 8);
      }
    }
  }

  lemma {:induction false} RangeOfBytes(b: seq<Byte>, p: seq<Byte>, c: nat)
    requires c <= |b| && c <= |p|
    ensures InRange(b, p, 8 * c) <==> b[..c] == p[..c]
  {
    hide SameBit, Halved;
    if c > 0 {
      RangeOfBytes(b, p, c - 1);
      FirstBits(b, p, c - 1, 8);
      HalvedNot(b[c - 1]);
      HalvedNot(p[c - 1]);
      assert b[..c] == b[..c - 1] + [b[c - 1]] && p[..c] == p[..c - 1] + [p[c - 1]];
      SplitRange(b, p, 8 * (c - 1), 8 * c);
      if b[..c] == p[..c] { assert b[..c][..c - 1] == b[..c - 1] && p[..c][..c - 1] == p[..c - 1]; }
    }
  }

  lemma SplitRange(b: seq<Byte>, p: seq<Byte>, i: nat, n: nat)
    requires i <= n <= 8 * |b| && n <= 8 * |p|
    ensures InRange(b, p, n) <==> InRange(b, p, i) && forall k: nat :: i <= k < n ==> SameBit(b, p, k)
  {
    hide SameBit;
  }

  /** A range that ends inside byte c. */
  lemma RangeInByte(b: seq<Byte>, p: seq<Byte>, c: nat, j: nat)
    requires c < |b| && c < |p| && j <= 8
    ensures InRange(b, p, 8 * c + j) <==> b[..c] == p[..c] && Halved(b[c], 8 - j) == Halved(p[c], 8 - j)
  {
    hide InRange, SameBit, Halved;
    RangeOfBytes(b, p, c);
    FirstBits(b, p, c, j);
    SplitRange(b, p, 8 * c, 8 * c + j);
  }

  lemma ContainsIsRange(e: Entry, b: seq<Byte>)
    requires EntryOk(e) && |b| == 16
    ensures Contains(e, b) <==> InRange(b, e.prefix, e.bits)
  {
    var r := CommonBits(e.prefix, b, 0, 128);
    forall k: nat | k < 128 ensures SameBit(b, e.prefix, k) == SameBit(e.prefix, b, k) {}
  }

  // ----- the policy table

  datatype Policy = Policy(precedence: nat, tag: nat)

  /** Section 2.1 of RFC 6724, by the bytes of the address. */
  function PolicyOf(b: seq<Byte>): Policy
    requires |b| == 16
  {
    if b[..15] == seq(15, _ => 0) && b[15] == 1 then Policy(50, 0)                // ::1
    else if b[..12] == MAPPED then Policy(35, 4)                                  // ::ffff:0:0/96
    else if b[..12] == seq(12, _ => 0) then Policy(1, 3)                          // ::/96
    else if b[0] == 0x20 && b[1] == 0x01 && b[2] == b[3] == 0 then Policy(5, 5)   // 2001::/32
    else if b[0] == 0x20 && b[1] == 0x02 then Policy(30, 2)                       // 2002::/16
    else if b[0] == 0x3F && b[1] == 0xFE then Policy(1, 12)                       // 3ffe::/16
    else if b[0] == 0xFE && 0xC0 <= b[1] then Policy(1, 11)                       // fec0::/10
    else if 0xFC <= b[0] <= 0xFD then Policy(3, 13)                               // fc00::/7
    else Policy(40, 1)
  }

  lemma WholeBytes(e: Entry, b: seq<Byte>, c: nat)
    requires EntryOk(e) && |b| == 16 && e.bits == 8 * c && c <= 16
    ensures Contains(e, b) <==> b[..c] == e.prefix[..c]
  {
    hide Contains, InRange;
    ContainsIsRange(e, b);
    RangeOfBytes(b, e.prefix, c);
  }

  lemma PaddedFront(p: seq<Byte>)
    requires |p| <= 16
    ensures |Pad(p)| == 16 && Pad(p)[..|p|] == p && forall k :: |p| <= k < 16 ==> Pad(p)[k] == 0
  {
  }

  lemma HalvedTwo(x: nat)
    ensures Halved(x, 1) == x / 2
  {
  }

  lemma HalvedSix(x: Byte)
    ensures Halved(x, 6) == x / 64
  {
    assert Halved(x, 1) == x / 2;
    assert Halved(x, 2) == x / 4;
    assert Halved(x, 3) == x / 8;
    assert Halved(x, 4) == x / 16;
    assert Halved(x, 5) == x / 32;
  }

  lemma SevenBits(b: seq<Byte>)
    requires |b| == 16
    ensures Contains(Entry(Pad([0xFC]), 7, 3, 13), b) <==> 0xFC <= b[0] <= 0xFD
  {
    hide Contains, InRange, Halved;
    var e := Entry(Pad([0xFC]), 7, 3, 13);
    PaddedFront([0xFC]);
    assert Pad([0xFC])[0] == Pad([0xFC])[..1][0] == 0xFC;
    ContainsIsRange(e, b);
    RangeInByte(b, e.prefix, 0, 7);
    HalvedTwo(b[0]);
    HalvedTwo(0xFC);
    assert b[..0] == e.prefix[..0];
  }

  lemma TenBits(p: seq<Byte>, b: seq<Byte>)
    requires |p| == |b| == 16
    ensures InRange(b, p, 10) <==> b[0] == p[0] && b[1] / 64 == p[1] / 64
  {
    hide InRange, Halved;
    RangeInByte(b, p, 1, 2);
    HalvedSix(b[1]);
    HalvedSix(p[1]);
    assert b[..1] == [b[0]] && p[..1] == [p[0]];
  }

  lemma SiteLocal(b: seq<Byte>)
    requires |b| == 16
    ensures Contains(Entry(Pad([0xFE, 0xC0]), 10, 1, 11), b) <==> b[0] == 0xFE && 0xC0 <= b[1]
  {
    hide Contains, InRange;
    var e := Entry(Pad([0xFE, 0xC0]), 10, 1, 11);
    PaddedFront([0xFE, 0xC0]);
    assert e.prefix[..2][0] == 0xFE && e.prefix[..2][1] == 0xC0;
    ContainsIsRange(e, b);
    TenBits(e.prefix, b);
  }

  lemma FrontIs(b: seq<Byte>, p: seq<Byte>)
    requires |p| <= |b|
    ensures b[..|p|] == p <==> forall k :: 0 <= k < |p| ==> b[k] == p[k]
  {
  }

  lemma FrontRange(b: seq<Byte>, p: seq<Byte>, precedence: nat, tag: nat)
    requires |b| == 16 && |p| <= 16
    ensures Contains(Entry(Pad(p), 8 * |p|, precedence, tag), b) <==> b[..|p|] == p
  {
    hide Contains;
    PaddedFront(p);
    WholeBytes(Entry(Pad(p), 8 * |p|, precedence, tag), b, |p|);
  }

  /** ::1, ::/96 and ::/0 */
  lemma ZeroRanges(b: seq<Byte>)
    requires |b| == 16
    ensures Contains(Entry(LOOPBACK, 128, 50, 0), b) <==> b[..15] == seq(15, _ => 0) && b[15] == 1
    ensures Contains(Entry(Pad([]), 96, 1, 3), b) <==> b[..12] == seq(12, _ => 0)
    ensures Contains(Entry(Pad([]), 0, 40, 1), b)
  {
    hide Contains;
    WholeBytes(Entry(LOOPBACK, 128, 50, 0), b, 16);
    assert b[..16] == b && LOOPBACK[..16] == LOOPBACK && LOOPBACK[..15] == seq(15, _ => 0);
    assert b == b[..15] + [b[15]] && LOOPBACK == LOOPBACK[..15] + [1];
    WholeBytes(Entry(Pad([]), 96, 1, 3), b, 12);
    PaddedFront([]);
    assert Pad([])[..12] == seq(12, _ => 0);
    WholeBytes(Entry(Pad([]), 0, 40, 1), b, 0);
    assert b[..0] == Pad([])[..0];
  }

  lemma MatchFrom(t: seq<Entry>, b: seq<Byte>, i: nat)
    requires |b| == 16 && i < |t| && forall k :: 0 <= k < |t| ==> EntryOk(t[k])
    ensures FirstMatch(t, b, i) == if Contains(t[i], b) then t[i] else FirstMatch(t, b, i + 1)
  {
  }

  /** Every address has the precedence and label of its range. */
  lemma ClassifyByRange(b: seq<Byte>)
    requires |b| == 16
    ensures Policy(Classify(b).precedence, Classify(b).tag) == PolicyOf(b)
  {
    hide Contains, FirstMatch, Pad;
    var t := PolicyTable();
    ZeroRanges(b);
    FrontRange(b, MAPPED, 35, 4);
    FrontRange(b, [0x20, 0x01, 0, 0], 5, 5);
    SamePad();
    FrontRange(b, [0x20, 0x02], 30, 2);
    FrontRange(b, [0x3F, 0xFE], 1, 12);
    FrontIs(b, [0x20, 0x01, 0, 0]);
    FrontIs(b, [0x20, 0x02]);
    FrontIs(b, [0x3F, 0xFE]);
    SiteLocal(b);
    SevenBits(b);
    MatchFrom(t, b, 0);
    MatchFrom(t, b, 1);
    MatchFrom(t, b, 2);
    MatchFrom(t, b, 3);
    MatchFrom(t, b, 4);
    MatchFrom(t, b, 5);
    MatchFrom(t, b, 6);
    MatchFrom(t, b, 7);
    MatchFrom(t, b, 8);
  }

  lemma SamePad()
    ensures Pad([0x20, 0x01]) == Pad([0x20, 0x01, 0, 0])
  {
  }

  // ----- scopes

  const LINK_LOCAL_NET: seq<Byte> := [0xFE, 0x80]
  const SITE_LOCAL_NET: seq<Byte> := [0xFE, 0xC0]

  /** Section 3.1 of RFC 6724: loopback and link-local addresses have link-local scope,
      multicast addresses the one they carry, deprecated site-local ones their own, and
      all others are global; IPv4 addresses likewise (section 3.2). */
  ghost function ScopeOf(a: Addr): nat
    requires AddrOk(a) && !a.Invalid?
  {
    var u := Unmapped(a);
    if u.V4? then if InRange(u.b, [127], 8) || InRange(u.b, [169, 254], 16) then 2 else 14
    else if u.b == LOOPBACK || InRange(u.b, LINK_LOCAL_NET, 10) then 2
    else if InRange(u.b, [0xFF], 8) then u.b[1] % 16
    else if InRange(u.b, SITE_LOCAL_NET, 10) then 5
    else 14
  }

  lemma OneByte(b: seq<Byte>, x: Byte)
    requires |b| > 0
    ensures InRange(b, [x], 8) <==> b[0] == x
  {
    RangeOfBytes(b, [x], 1);
    FrontIs(b, [x]);
    assert [x][..1] == [x];
  }

  lemma TwoBytes(b: seq<Byte>, x: Byte, y: Byte)
    requires |b| > 1
    ensures InRange(b, [x, y], 16) <==> b[0] == x && b[1] == y
  {
    RangeOfBytes(b, [x, y], 2);
    FrontIs(b, [x, y]);
    assert [x, y][..2] == [x, y];
  }

  lemma TenOfTwo(b: seq<Byte>, p: seq<Byte>)
    requires |b| == 16 && |p| == 2
    ensures InRange(b, p, 10) <==> b[0] == p[0] && b[1] / 64 == p[1] / 64
  {
    hide InRange, Halved;
    RangeInByte(b, p, 1, 2);
    HalvedSix(b[1]);
    HalvedSix(p[1]);
    assert b[..1] == [b[0]] && p[..1] == [p[0]];
  }

  /** Every address has the scope of its range. */
  lemma ScopeByRange(a: Addr)
    requires AddrOk(a) && !a.Invalid?
    ensures ClassifyScope(a) == ScopeOf(a)
  {
    hide InRange;
    var u := Unmapped(a);
    OneByte(u.b, 127);
    OneByte(u.b, 0xFF);
    TwoBytes(u.b, 169, 254);
    if u.V6? {
      TenOfTwo(u.b, LINK_LOCAL_NET);
      TenOfTwo(u.b, SITE_LOCAL_NET);
    }
  }

  // ----- the rules of section 6

  /** Scope, precedence and label of an address; those of a malformed one are zero. */
  ghost function Traits(a: Addr): (r: (nat, Policy))
    requires AddrOk(a)
  {
    if a.Invalid? then (0, Policy(0, 0)) else (ScopeOf(a), PolicyOf(As16(a)))
  }

  datatype RuleName = Usable | MatchingScope | MatchingLabel | Precedence | SmallerScope | LongerPrefix

  const RULES: seq<RuleName> := [Usable, MatchingScope, MatchingLabel, Precedence, SmallerScope, LongerPrefix]

  /** By this rule alone a is better than b.  Rules 3, 4 and 7 are not implemented. */
  ghost predicate Better(rule: RuleName, a: Info, b: Info)
    requires InfoOk(a) && InfoOk(b)
  {
    if rule.Usable? then !a.src.Invalid? && b.src.Invalid?
    else
      && !a.src.Invalid? && !b.src.Invalid?
      && var (scopeA, policyA) := Traits(FromSlice(a.ip));
         var (scopeB, policyB) := Traits(FromSlice(b.ip));
         var (scopeSA, policySA) := Traits(a.src);
         var (scopeSB, policySB) := Traits(b.src);
         match rule
         case Usable => false
         case MatchingScope => scopeA == scopeSA && scopeB != scopeSB
         case MatchingLabel => policyA.tag == policySA.tag && policyB.tag != policySB.tag
         case Precedence => policyA.precedence > policyB.precedence
         case SmallerScope => scopeA < scopeB
         case LongerPrefix =>
           To4(a.ip).None? && To4(b.ip).None? && CommonPrefix(a.src, a.ip) > CommonPrefix(b.src, b.ip)
  }

  /** The first rule that tells a and b apart prefers a. */
  ghost predicate Prefers(a: Info, b: Info, k: nat)
    requires InfoOk(a) && InfoOk(b)
    decreases |RULES| - k
  {
    k < |RULES| && (Better(RULES[k], a, b) || (!Better(RULES[k], b, a) && Prefers(a, b, k + 1)))
  }

  lemma AttrIsTraits(a: Addr)
    requires AddrOk(a)
    ensures Traits(a) == (AttrOf(a).scope, Policy(AttrOf(a).precedence, AttrOf(a).tag))
  {
    hide ClassifyScope, ScopeOf, Classify, PolicyOf;
    if !a.Invalid? {
      ScopeByRange(a);
      ClassifyByRange(As16(a));
    }
  }

  /** The comparison goes by the first rule of section 6 that tells the two apart, in the
      order in which the section gives them. */
  lemma CompareByRules(a: Info, b: Info)
    requires InfoOk(a) && InfoOk(b)
    ensures Compare(a, b) == -1 <==> Prefers(a, b, 0)
    ensures Compare(a, b) == 1 <==> Prefers(b, a, 0)
    ensures Compare(a, b) in {-1, 0, 1}
  {
    hide AttrOf, Traits, CommonPrefix, To4, FromSlice;
    AttrIsTraits(FromSlice(a.ip));
    AttrIsTraits(FromSlice(b.ip));
    AttrIsTraits(a.src);
    AttrIsTraits(b.src);
    Unroll(a, b);
    Unroll(b, a);
  }

  lemma Unroll(a: Info, b: Info)
    requires InfoOk(a) && InfoOk(b)
    ensures Prefers(a, b, 0) <==>
      Better(Usable, a, b) || (!Better(Usable, b, a) && (
      Better(MatchingScope, a, b) || (!Better(MatchingScope, b, a) && (
      Better(MatchingLabel, a, b) || (!Better(MatchingLabel, b, a) && (
      Better(Precedence, a, b) || (!Better(Precedence, b, a) && (
      Better(SmallerScope, a, b) || (!Better(SmallerScope, b, a) && Better(LongerPrefix, a, b))))))))))
  {
    hide Better;
    assert !Prefers(a, b, 6);
    assert Prefers(a, b, 5) <==> Better(LongerPrefix, a, b);
    assert Prefers(a, b, 4) <==> Better(SmallerScope, a, b) || (!Better(SmallerScope, b, a) && Prefers(a, b, 5));
    assert Prefers(a, b, 3) <==> Better(Precedence, a, b) || (!Better(Precedence, b, a) && Prefers(a, b, 4));
    assert Prefers(a, b, 2) <==> Better(MatchingLabel, a, b) || (!Better(MatchingLabel, b, a) && Prefers(a, b, 3));
    assert Prefers(a, b, 1) <==> Better(MatchingScope, a, b) || (!Better(MatchingScope, b, a) && Prefers(a, b, 2));
  }
}
