/** net/addrselect.go: choosing among addresses (section 6 of RFC 6724). */
module AddrSelect {

  import opened Common

  // ----- addresses

  /** netip.Addr without zones; the constructors' lengths are those of the families. */
  datatype Addr = Invalid | V4(b: seq<Byte>) | V6(b: seq<Byte>)

  predicate AddrOk(a: Addr) {
    match a
    case Invalid => true
    case V4(b) => |b| == 4
    case V6(b) => |b| == 16
  }

  /** netip.AddrFromSlice of a net.IP, which may have any length. */
  function FromSlice(ip: seq<Byte>): (a: Addr)
    ensures AddrOk(a)
  {
    if |ip| == 4 then V4(ip) else if |ip| == 16 then V6(ip) else Invalid
  }

  const MAPPED: seq<Byte> := [0, 0, 0, 0, 0, 0, 0, 0, 0, 0, 0xFF, 0xFF]

  /** An IPv4 address written as IPv6. */
  predicate IsMapped(b: seq<Byte>) { |b| == 16 && b[..12] == MAPPED }

  /** IP.To4 */
  function To4(ip: seq<Byte>): Option<seq<Byte>> {
    if |ip| == 4 then Some(ip) else if IsMapped(ip) then Some(ip[12..]) else None
  }

  function As16(a: Addr): seq<Byte> {
    match a
    case Invalid => seq(16, _ => 0)
    case V4(b) => MAPPED + b
    case V6(b) => b
  }

  // ----- bits

  function Halved(x: nat, j: nat): nat { if j == 0 then x else Halved(x, j - 1) / 2 }

  /** Bit i of an address, the most significant first. */
  function BitAt(b: seq<Byte>, i: nat): nat
    requires i < 8 * |b|
  {
    Halved(b[i / 8], 7 - i % 8) % 2
  }

  predicate SameBit(a: seq<Byte>, b: seq<Byte>, i: nat) { i < 8 * |a| && i < 8 * |b| && BitAt(a, i) == BitAt(b, i) }

  /** How many of the first n bits agree before one differs. */
  function CommonBits(a: seq<Byte>, b: seq<Byte>, i: nat, n: nat): (r: nat)
    requires i <= n <= 8 * |a| && n <= 8 * |b|
    ensures i <= r <= n && (forall k :: i <= k < r ==> SameBit(a, b, k)) && (r < n ==> !SameBit(a, b, r))
    decreases n - i
  {
    if i < n && SameBit(a, b, i) then CommonBits(a, b, i + 1, n) else i
  }

  lemma HalvedAway(x: nat)
    requires x < 256
    ensures Halved(x, 8) == 0
  {
    assert Halved(x, 1) < 128;
    assert Halved(x, 2) < 64;
    assert Halved(x, 3) < 32;
    assert Halved(x, 4) < 16;
    assert Halved(x, 5) < 8;
    assert Halved(x, 6) < 4;
    assert Halved(x, 7) < 2;
  }

  lemma {:induction false} HalvedSame(x: nat, y: nat, j: nat, k: nat)
    requires j <= k && Halved(x, j) == Halved(y, j)
    ensures Halved(x, k) == Halved(y, k)
    decreases k - j
  {
    if j < k { HalvedSame(x, y, j, k - 1); }
  }

  lemma {:induction false} CommonSkips(a: seq<Byte>, b: seq<Byte>, i: nat, j: nat, n: nat)
    requires i <= j <= n <= 8 * |a| && n <= 8 * |b| && forall k :: i <= k < j ==> SameBit(a, b, k)
    ensures CommonBits(a, b, i, n) == CommonBits(a, b, j, n)
    decreases j - i
  {
    if i < j { CommonSkips(a, b, i + 1, j, n); }
  }

  /** Byte c of both is the same, so its eight bits are. */
  lemma SameByte(a: seq<Byte>, b: seq<Byte>, c: nat, n: nat)
    requires c < |a| && c < |b| && a[c] == b[c] && 8 * c + 8 <= n <= 8 * |a| && n <= 8 * |b|
    ensures CommonBits(a, b, 8 * c, n) == CommonBits(a, b, 8 * c + 8, n)
  {
    forall k | 8 * c <= k < 8 * c + 8 ensures SameBit(a, b, k) { assert k / 8 == c; }
    CommonSkips(a, b, 8 * c, 8 * c + 8, n);
  }

  /** j halvings make byte c of both the same, and one fewer does not. */
  lemma ByteDiffers(a: seq<Byte>, b: seq<Byte>, c: nat, j: nat, n: nat)
    requires c < |a| && c < |b| && 1 <= j <= 8 && 8 * c + 8 <= n <= 8 * |a| && n <= 8 * |b|
    requires Halved(a[c], j) == Halved(b[c], j) && Halved(a[c], j - 1) != Halved(b[c], j - 1)
    ensures CommonBits(a, b, 8 * c, n) == 8 * c + (8 - j)
  {
    hide Halved;
    var d := 8 * c + (8 - j);
    forall k | 8 * c <= k < d ensures SameBit(a, b, k) {
      assert k / 8 == c && 7 - k % 8 >= j;
      HalvedSame(a[c], b[c], j, 7 - k % 8);
    }
    CommonSkips(a, b, 8 * c, d, n);
    assert d / 8 == c && 7 - d % 8 == j - 1;
    HalfAndBit(a[c], j);
    HalfAndBit(b[c], j);
    assert !SameBit(a, b, d);
  }

  lemma HalfAndBit(x: nat, j: nat)
    requires j > 0
    ensures Halved(x, j - 1) == 2 * Halved(x, j) + Halved(x, j - 1) % 2
  {
  }

  // ----- commonPrefixLen

  /** The bits two addresses of one family have in common at the front, of 64 at most. */
  function CommonPrefix(a: Addr, ip: seq<Byte>): nat
    requires AddrOk(a)
  {
    var b := if To4(ip).Some? then To4(ip).value else ip;
    match a
    case V4(x) => if |b| == 4 then CommonBits(x, b, 0, 32) else 0
    case V6(x) => if |b| == 16 then CommonBits(x, b, 0, 64) else 0
    case Invalid => 0
  }

  method CommonPrefixLen(a: Addr, ip: seq<Byte>) returns (cpl: nat)
    requires AddrOk(a)
    ensures cpl == CommonPrefix(a, ip)
  {
    hide CommonBits, IsMapped, SameBit;
    var b := ip;
    var b4 := To4(b);
    if b4.Some? { b := b4.value; }
    var x := if a.Invalid? then [] else a.b;
    if |x| != |b| { return 0; }
    cpl := CommonBytes(x, b);
  }

  /** The outer loop, over what is not cut off. */
  method CommonBytes(x0: seq<Byte>, y0: seq<Byte>) returns (cpl: nat)
    requires |x0| == |y0|
    ensures cpl == CommonBits(x0, y0, 0, 8 * Min(|x0|, 8))
  {
    hide CommonBits, SameBit;
    var x, b := x0, y0;
    if |x| > 8 { x, b := x[..8], b[..8]; }
    ghost var n := 8 * |x|;
    ghost var c: nat := 0;
    cpl := 0;
    while |x| > 0
      invariant cpl == 8 * c && |x| == |b| && 8 * (c + |x|) == n <= 8 * |x0| == 8 * |y0|
      invariant x == x0[c..c + |x|] && b == y0[c..c + |x|]
      invariant CommonBits(x0, y0, 0, n) == CommonBits(x0, y0, 8 * c, n)
    {
      if x[0] == b[0] {
        SameByte(x0, y0, c, n);
        cpl := cpl + 8;
        x, b, c := x[1..], b[1..], c + 1;
        continue;
      }
      var bits := DifferingByte(x[0], b[0]);
      ByteDiffers(x0, y0, c, 8 - bits, n);
      return cpl + bits;
    }
  }

  /** The inner loop: both bytes are halved until they agree. */
  method DifferingByte(x: Byte, y: Byte) returns (bits: nat)
    requires x != y
    ensures bits < 8 && Halved(x, 8 - bits) == Halved(y, 8 - bits) && Halved(x, 7 - bits) != Halved(y, 7 - bits)
  {
    HalvedAway(x);
    HalvedAway(y);
    bits := 8;
    var ab: nat, bb: nat := x, y;
    while true
      invariant 0 < bits <= 8 && ab == Halved(x, 8 - bits) && bb == Halved(y, 8 - bits) && ab != bb
      decreases bits
    {
      ab := ab / 2;
      bb := bb / 2;
      bits := bits - 1;
      if ab == bb { return; }
    }
  }

  // ----- the policy table

  /** tag is the Label. */
  datatype Entry = Entry(prefix: seq<Byte>, bits: nat, precedence: nat, tag: nat)

  predicate EntryOk(e: Entry) { |e.prefix| == 16 && e.bits <= 128 }

  /** Prefix.Contains of an IPv6 prefix. */
  predicate Contains(e: Entry, b: seq<Byte>)
    requires EntryOk(e) && |b| == 16
  {
    CommonBits(e.prefix, b, 0, 128) >= e.bits
  }

  /** The first entry that contains the address; an empty one if none does. */
  method ClassifyIn(t: seq<Entry>, a: Addr) returns (r: Entry)
    requires AddrOk(a) && forall i :: 0 <= i < |t| ==> EntryOk(t[i])
    ensures r == FirstMatch(t, As16(a), 0)
  {
    var ip := if a.V4? then As16(a) else if a.V6? then a.b else As16(a);
    var i: nat := 0;
    while i < |t|
      invariant i <= |t| && FirstMatch(t, ip, i) == FirstMatch(t, ip, 0)
    {
      if Contains(t[i], ip) { return t[i]; }
      i := i + 1;
    }
    return Entry([], 0, 0, 0);
  }

  function FirstMatch(t: seq<Entry>, b: seq<Byte>, i: nat): Entry
    requires |b| == 16 && forall k :: 0 <= k < |t| ==> EntryOk(t[k])
    decreases |t| - i
  {
    if i >= |t| then Entry([], 0, 0, 0) else if Contains(t[i], b) then t[i] else FirstMatch(t, b, i + 1)
  }

  /** In a table sorted from the longest prefix to the shortest, the entry chosen has the
      longest prefix of all that contain the address. */
  lemma {:induction false} LongestMatch(t: seq<Entry>, b: seq<Byte>, i: nat, k: nat)
    requires |b| == 16 && (forall k :: 0 <= k < |t| ==> EntryOk(t[k]))
    requires forall x, y :: 0 <= x < y < |t| ==> t[x].bits >= t[y].bits
    requires i <= k < |t| && Contains(t[k], b)
    ensures var r := FirstMatch(t, b, i); r in t && Contains(r, b) && r.bits >= t[k].bits
    decreases |t| - i
  {
    if !Contains(t[i], b) { LongestMatch(t, b, i + 1, k); }
  }

  function Pad(b: seq<Byte>): (r: seq<Byte>)
    ensures |b| <= 16 ==> |r| == 16
  {
    b + seq(if |b| <= 16 then 16 - |b| else 0, _ => 0)
  }

  const LOOPBACK: seq<Byte> := [0, 0, 0, 0, 0, 0, 0, 0, 0, 0, 0, 0, 0, 0, 0, 1]

  /** Section 2.1 of RFC 6724. */
  function PolicyTable(): (t: seq<Entry>)
    ensures |t| == 9 && forall i :: 0 <= i < |t| ==> EntryOk(t[i])
    ensures forall x, y :: 0 <= x < y < |t| ==> t[x].bits >= t[y].bits
    ensures t[8].bits == 0
  {
    [Entry(LOOPBACK, 128, 50, 0),
     Entry(Pad(MAPPED), 96, 35, 4),
     Entry(Pad([]), 96, 1, 3),
     Entry(Pad([0x20, 0x01]), 32, 5, 5),
     Entry(Pad([0x20, 0x02]), 16, 30, 2),
     Entry(Pad([0x3F, 0xFE]), 16, 1, 12),
     Entry(Pad([0xFE, 0xC0]), 10, 1, 11),
     Entry(Pad([0xFC]), 7, 3, 13),
     Entry(Pad([]), 0, 40, 1)]
  }

  function Classify(b: seq<Byte>): Entry
    requires |b| == 16
  {
    FirstMatch(PolicyTable(), b, 0)
  }

  /** Every address has a class, and it is the longest match. */
  lemma ClassifyIsLongest(b: seq<Byte>, k: nat)
    requires |b| == 16 && k < 9 && Contains(PolicyTable()[k], b)
    ensures var r := Classify(b); r in PolicyTable() && Contains(r, b) && r.bits >= PolicyTable()[k].bits
  {
    hide PolicyTable, Contains;
    LongestMatch(PolicyTable(), b, 0, k);
  }

  lemma EveryoneIsClassified(b: seq<Byte>)
    requires |b| == 16
    ensures Classify(b) in PolicyTable()
  {
    hide PolicyTable;
    ClassifyIsLongest(b, 8);
  }

  // ----- only mapped addresses have precedence 35

  lemma {:induction false} FrontBytes(a: seq<Byte>, b: seq<Byte>, c: nat)
    requires |a| == |b| == 16 && c <= 16 && a[..c] == b[..c]
    ensures CommonBits(a, b, 0, 128) >= 8 * c
  {
    if c > 0 {
      forall k | 0 <= k < 8 * c ensures SameBit(a, b, k) {
        assert a[..c][k / 8] == b[..c][k / 8];
      }
      CommonSkips(a, b, 0, 8 * c, 128);
    }
  }

  lemma HalvedNot(x: nat)
    ensures Halved(x, 0) == x
  {
  }

  lemma {:induction false} HalvedUp(x: nat, y: nat, j: nat)
    requires j <= 8 && Halved(x, 8) == Halved(y, 8) && forall k :: j <= k < 8 ==> Halved(x, k) % 2 == Halved(y, k) % 2
    ensures Halved(x, j) == Halved(y, j)
    decreases 8 - j
  {
    hide Halved;
    if j < 8 {
      HalvedUp(x, y, j + 1);
      HalfAndBit(x, j + 1);
      HalfAndBit(y, j + 1);
    }
  }

  lemma BitOfByte(a: seq<Byte>, b: seq<Byte>, c: nat, k: nat)
    requires c < |a| && c < |b| && k < 8 && SameBit(a, b, 8 * c + (7 - k))
    ensures Halved(a[c], k) % 2 == Halved(b[c], k) % 2
  {
    hide Halved;
    var i := 8 * c + (7 - k);
    assert i / 8 == c && 7 - i % 8 == k;
  }

  lemma EqualByte(a: seq<Byte>, b: seq<Byte>, c: nat)
    requires |a| == |b| == 16 && c < 16 && CommonBits(a, b, 0, 128) >= 8 * c + 8
    ensures a[c] == b[c]
  {
    hide Halved, BitAt, SameBit;
    HalvedAway(a[c]);
    HalvedAway(b[c]);
    forall k | 0 <= k < 8 ensures Halved(a[c], k) % 2 == Halved(b[c], k) % 2 {
      assert SameBit(a, b, 8 * c + (7 - k));
      BitOfByte(a, b, c, k);
    }
    HalvedUp(a[c], b[c], 0);
    HalvedNot(a[c]);
    HalvedNot(b[c]);
  }

  lemma Front12(b: seq<Byte>)
    requires |b| == 16 && CommonBits(Pad(MAPPED), b, 0, 128) >= 96
    ensures b[..12] == MAPPED
  {
    var p := Pad(MAPPED);
    assert p[..12] == MAPPED;
    forall c | 0 <= c < 12 ensures b[c] == MAPPED[c] {
      EqualByte(p, b, c);
      assert p[c] == p[..12][c];
    }
  }

  lemma MappedContains(b: seq<Byte>)
    requires |b| == 16
    ensures Contains(PolicyTable()[1], b) <==> IsMapped(b)
  {
    var p := Pad(MAPPED);
    assert p[..12] == MAPPED;
    if IsMapped(b) {
      FrontBytes(p, b, 12);
    } else if CommonBits(p, b, 0, 128) >= 96 {
      Front12(b);
    }
  }

  lemma MappedNotLoopback(b: seq<Byte>)
    requires IsMapped(b)
    ensures !Contains(PolicyTable()[0], b)
  {
    assert b[10] == b[..12][10] == 0xFF;
    if CommonBits(LOOPBACK, b, 0, 128) >= 128 { EqualByte(LOOPBACK, b, 10); }
  }

  lemma MappedPrecedence(b: seq<Byte>)
    requires |b| == 16
    ensures Classify(b).precedence == 35 <==> IsMapped(b)
  {
    hide Contains;
    MappedContains(b);
    EveryoneIsClassified(b);
    if IsMapped(b) {
      MappedNotLoopback(b);
      FirstTwo(PolicyTable(), b);
    } else if Classify(b).precedence == 35 {
      Only35(Classify(b));
      MatchContains(PolicyTable(), b, 0);
    }
  }

  lemma FirstTwo(t: seq<Entry>, b: seq<Byte>)
    requires |b| == 16 && |t| > 1 && forall k :: 0 <= k < |t| ==> EntryOk(t[k])
    requires !Contains(t[0], b) && Contains(t[1], b)
    ensures FirstMatch(t, b, 0) == t[1]
  {
  }

  lemma Only35(e: Entry)
    requires e in PolicyTable() && e.precedence == 35
    ensures e == PolicyTable()[1]
  {
  }

  lemma {:induction false} MatchContains(t: seq<Entry>, b: seq<Byte>, i: nat)
    requires |b| == 16 && forall k :: 0 <= k < |t| ==> EntryOk(t[k])
    requires FirstMatch(t, b, i) in t
    ensures FirstMatch(t, b, i) == Entry([], 0, 0, 0) || Contains(FirstMatch(t, b, i), b)
    decreases |t| - i
  {
    hide Contains;
    if i < |t| && !Contains(t[i], b) { MatchContains(t, b, i + 1); }
  }

  // ----- the comparison

  const LINK_LOCAL := 2
  const SITE_LOCAL := 5
  const GLOBAL := 14

  /** The IPv4 bytes of an IPv4 or mapped address. */
  function Unmapped(a: Addr): Addr
    requires AddrOk(a)
  {
    if a.V6? && IsMapped(a.b) then V4(a.b[12..]) else a
  }

  // ----- commonPrefixLen and its documentation

  /** The documented result: either address, if an IPv4 one written as IPv6, is compared by
      its IPv4 bytes, and addresses of different versions share nothing. */
  function Documented(a: Addr, ip: seq<Byte>): nat
    requires AddrOk(a)
  {
    CommonPrefix(Unmapped(a), ip)
  }

  predicate TopBit(b: seq<Byte>) { |b| > 0 && b[0] >= 128 }

  /** The code converts only its second argument.  It does as documented exactly when the
      first needs no conversion, or when the first bits of what should be compared, and of
      what is, differ anyway. */
  predicate Spared(a: Addr, ip: seq<Byte>)
    requires AddrOk(a)
  {
    || !(a.V6? && IsMapped(a.b))
    || match To4(ip)
       case Some(b) => TopBit(a.b[12..]) != TopBit(b)
       case None => |ip| == 16 ==> TopBit(ip)
  }

  lemma NoCommonBits(a: seq<Byte>, b: seq<Byte>, n: nat)
    requires |a| > 0 && |b| > 0 && 0 < n <= 8 * |a| && n <= 8 * |b|
    ensures CommonBits(a, b, 0, n) == 0 <==> TopBit(a) != TopBit(b)
  {
    TopHalving(a[0]);
    TopHalving(b[0]);
    assert BitAt(a, 0) == Halved(a[0], 7) % 2 && BitAt(b, 0) == Halved(b[0], 7) % 2;
  }

  lemma TopHalving(x: Byte)
    ensures Halved(x, 7) == if x >= 128 then 1 else 0
  {
    assert Halved(x, 1) == x / 2;
    assert Halved(x, 2) == x / 4;
    assert Halved(x, 3) == x / 8;
    assert Halved(x, 4) == x / 16;
    assert Halved(x, 5) == x / 32;
    assert Halved(x, 6) == x / 64;
  }

  lemma AsDocumented(a: Addr, ip: seq<Byte>)
    requires AddrOk(a)
    ensures CommonPrefix(a, ip) == Documented(a, ip) <==> Spared(a, ip)
  {
    hide CommonBits, Halved;
    if a.V6? && IsMapped(a.b) {
      assert a.b[0] == a.b[..12][0] == 0;
      if To4(ip).Some? {
        NoCommonBits(a.b[12..], To4(ip).value, 32);
      } else if |ip| == 16 {
        NoCommonBits(a.b, ip, 64);
      }
    }
  }

  lemma SameFront(a: seq<Byte>, b: seq<Byte>, c: nat)
    requires c <= |a| && c <= |b| && a[..c] == b[..c]
    ensures CommonBits(a, b, 0, 8 * c) == 8 * c
  {
    forall k | 0 <= k < 8 * c ensures SameBit(a, b, k) {
      assert a[..c][k / 8] == b[..c][k / 8];
    }
    CommonSkips(a, b, 0, 8 * c, 8 * c);
  }

  /** ::ffff:1.2.3.4 */
  const MAPPED_1234: seq<Byte> := [0, 0, 0, 0, 0, 0, 0, 0, 0, 0, 0xFF, 0xFF, 1, 2, 3, 4]

  /** ::ffff:1.2.3.4 and ::1 are of different versions, and get 64 bits in common. */
  lemma MixedVersions()
    ensures IsMapped(MAPPED_1234)
    ensures CommonPrefix(V6(MAPPED_1234), LOOPBACK) == 64 && Documented(V6(MAPPED_1234), LOOPBACK) == 0
  {
    hide CommonBits;
    assert MAPPED_1234[..12] == MAPPED;
    assert LOOPBACK[..12][10] != MAPPED[10];
    assert MAPPED_1234[..8] == LOOPBACK[..8];
    SameFront(MAPPED_1234, LOOPBACK, 8);
  }

  /** ::ffff:1.2.3.4 and 1.2.3.4 are the same address, and get none. */
  lemma SameAddress()
    ensures CommonPrefix(V6(MAPPED_1234), [1, 2, 3, 4]) == 0 && Documented(V6(MAPPED_1234), [1, 2, 3, 4]) == 32
  {
    hide CommonBits;
    assert MAPPED_1234[..12] == MAPPED && MAPPED_1234[12..] == [1, 2, 3, 4];
    SameFront([1, 2, 3, 4], [1, 2, 3, 4], 4);
  }

  predicate IsLoopback(a: Addr)
    requires AddrOk(a)
  {
    var u := Unmapped(a);
    match u
    case V4(b) => b[0] == 127
    case V6(b) => b == LOOPBACK
    case Invalid => false
  }

  predicate IsLinkLocalUnicast(a: Addr)
    requires AddrOk(a)
  {
    var u := Unmapped(a);
    match u
    case V4(b) => b[0] == 169 && b[1] == 254
    case V6(b) => b[0] == 0xFE && b[1] / 64 == 2
    case Invalid => false
  }

  /** Section 3.1 of RFC 6724. */
  function ClassifyScope(a: Addr): nat
    requires AddrOk(a)
  {
    if IsLoopback(a) || IsLinkLocalUnicast(a) then LINK_LOCAL
    else if a.V6? && !IsMapped(a.b) && a.b[0] == 0xFF then a.b[1] % 16
    else if a.V6? && !IsMapped(a.b) && a.b[0] == 0xFE && a.b[1] / 64 == 3 then SITE_LOCAL
    else GLOBAL
  }

  datatype Attr = Attr(scope: nat, precedence: nat, tag: nat)

  function AttrOf(a: Addr): Attr
    requires AddrOk(a)
  {
    if a.Invalid? then Attr(0, 0, 0)
    else var m := Classify(As16(a)); Attr(ClassifyScope(a), m.precedence, m.tag)
  }

  /** A destination address and the source address that would be used for it. */
  datatype Info = Info(ip: seq<Byte>, src: Addr)

  predicate InfoOk(i: Info) { AddrOk(i.src) }

  /** compareByRFC6724: -1 if a is preferred, 1 if b is, 0 if neither. */
  function Compare(a: Info, b: Info): int
    requires InfoOk(a) && InfoOk(b)
  {
    var da, db := AttrOf(FromSlice(a.ip)), AttrOf(FromSlice(b.ip));
    var sa, sb := AttrOf(a.src), AttrOf(b.src);
    if a.src.Invalid? && b.src.Invalid? then 0
    else if b.src.Invalid? then -1
    else if a.src.Invalid? then 1
    else if da.scope == sa.scope && db.scope != sb.scope then -1
    else if da.scope != sa.scope && db.scope == sb.scope then 1
    else if sa.tag == da.tag && sb.tag != db.tag then -1
    else if sa.tag != da.tag && sb.tag == db.tag then 1
    else if da.precedence > db.precedence then -1
    else if da.precedence < db.precedence then 1
    else if da.scope < db.scope then -1
    else if da.scope > db.scope then 1
    else if To4(a.ip).None? && To4(b.ip).None? then
      var ca, cb := CommonPrefix(a.src, a.ip), CommonPrefix(b.src, b.ip);
      if ca > cb then -1 else if ca < cb then 1 else 0
    else 0
  }

  /** Precedence 35 is that of IPv4 destinations, and of no others. */
  lemma PrecedenceOfIPv4(ip: seq<Byte>)
    ensures AttrOf(FromSlice(ip)).precedence == 35 <==> To4(ip).Some?
  {
    hide Classify, ClassifyScope;
    var a := FromSlice(ip);
    if !a.Invalid? {
      MappedPrecedence(As16(a));
      if a.V4? { assert As16(a)[..12] == MAPPED; }
    }
  }

  /** What the rules compare, the most significant first; smaller is preferred. */
  datatype Rank = Rank(unusable: int, scope: int, tag: int, precedence: int, width: int, prefix: int)

  function RankOf(a: Info): Rank
    requires InfoOk(a)
  {
    var d, s := AttrOf(FromSlice(a.ip)), AttrOf(a.src);
    if a.src.Invalid? then Rank(1, 0, 0, 0, 0, 0)
    else
      Rank(0, if d.scope == s.scope then 0 else 1, if d.tag == s.tag then 0 else 1,
           -(d.precedence as int), d.scope, if To4(a.ip).None? then -(CommonPrefix(a.src, a.ip) as int) else 0)
  }

  function Sign(x: int, y: int): int { if x < y then -1 else if x > y then 1 else 0 }

  function Or(x: int, y: int): int { if x != 0 then x else y }

  /** Lexicographic order. */
  function Lex(r: Rank, s: Rank): int {
    Or(Sign(r.unusable, s.unusable), Or(Sign(r.scope, s.scope), Or(Sign(r.tag, s.tag),
      Or(Sign(r.precedence, s.precedence), Or(Sign(r.width, s.width), Sign(r.prefix, s.prefix))))))
  }

  /** Although rule 9 looks at IPv6 only, the comparison is that of one rank for each
      record: no IPv6 destination has the precedence of an IPv4 one. */
  lemma CompareIsRank(a: Info, b: Info)
    requires InfoOk(a) && InfoOk(b)
    ensures Compare(a, b) == Lex(RankOf(a), RankOf(b))
  {
    hide AttrOf, CommonPrefix, To4;
    PrecedenceOfIPv4(a.ip);
    PrecedenceOfIPv4(b.ip);
  }

  /** The comparison is a total preorder on all pairs of destination and source. */
  lemma TotalPreorder(a: Info, b: Info, c: Info)
    requires InfoOk(a) && InfoOk(b) && InfoOk(c)
    ensures Compare(a, a) == 0 && Compare(b, a) == -Compare(a, b)
    ensures Compare(a, b) <= 0 && Compare(b, c) <= 0 ==> Compare(a, c) <= 0
    ensures Compare(a, b) == 0 && Compare(b, c) == 0 ==> Compare(a, c) == 0
    ensures Compare(a, b) < 0 && Compare(b, c) <= 0 ==> Compare(a, c) < 0
  {
    hide Compare, RankOf;
    CompareIsRank(a, a);
    CompareIsRank(a, b);
    CompareIsRank(b, a);
    CompareIsRank(b, c);
    CompareIsRank(a, c);
  }
}
