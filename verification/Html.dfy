/** html/escape.go: escaping, and unescaping in place (section 13.2.5 of the WHATWG HTML
    standard). */
module Html {

  import opened Common
  import opened Utf8
  import opened IndexBytes

  const AMP: Byte := 38
  const HASH: Byte := 35
  const SEMI: Byte := 59
  const LONGEST_WITHOUT_SEMICOLON := 6

  /** Contents of 0x80 to 0x9F in Windows-1252. */
  const REPLACEMENTS: seq<int> := [
    0x20AC, 0x81, 0x201A, 0x192, 0x201E, 0x2026, 0x2020, 0x2021, 0x2C6, 0x2030, 0x160, 0x2039, 0x152, 0x8D, 0x17D, 0x8F,
    0x90, 0x2018, 0x2019, 0x201C, 0x201D, 0x2022, 0x2013, 0x2014, 0x2DC, 0x2122, 0x161, 0x203A, 0x153, 0x9D, 0x17E,
        0x178]

  /** The named references: to one code point, and to two. */
  datatype Tables = Tables(one: map<seq<Byte>, int>, two: map<seq<Byte>, (int, int)>)

  const AMP_NAME: seq<Byte> := [97, 109, 112, 59]
  const LT_NAME: seq<Byte> := [108, 116, 59]
  const GT_NAME: seq<Byte> := [103, 116, 59]

  /** What is known of the tables: no reference is shorter than what it stands for, and
      three entries. */
  ghost predicate TablesOk(t: Tables) {
    && (forall k :: k in t.one ==> t.one[k] != 0 && |Encode(t.one[k])| <= |k| + 1)
    && (forall k :: k in t.two ==> t.two[k].0 != 0 && |Encode(t.two[k].0)| + |Encode(t.two[k].1)| <= |k| + 1)
    && AMP_NAME in t.one && t.one[AMP_NAME] == 38
    && LT_NAME in t.one && t.one[LT_NAME] == 60
    && GT_NAME in t.one && t.one[GT_NAME] == 62
  }

  // ----- what a reference means

  /** What a reference at the start of the text stands for, and its length. */
  datatype Piece = Piece(out: seq<Byte>, n: nat)

  predicate IsDigit(c: Byte) { 48 <= c <= 57 }
  predicate IsHexLower(c: Byte) { 97 <= c <= 102 }
  predicate IsHexUpper(c: Byte) { 65 <= c <= 70 }
  predicate IsAlnum(c: Byte) { IsDigit(c) || 97 <= c <= 122 || 65 <= c <= 90 }

  /** rune arithmetic is that of int32. */
  function Wrap32(x: int): int { (x + 0x8000_0000) % 0x1_0000_0000 - 0x8000_0000 }

  /** The value of a digit; None if c is not one. */
  function Digit(c: Byte, hex: bool): Option<int> {
    if IsDigit(c) then Some(c - 48)
    else if hex && IsHexLower(c) then Some(c - 97 + 10)
    else if hex && IsHexUpper(c) then Some(c - 65 + 10)
    else None
  }

  function Shift(x: int, d: int, hex: bool): int { Wrap32((if hex then 16 else 10) * x + d) }

  datatype Scanned = Scanned(x: int, i: nat)

  /** Digits from i on, and the semicolon that may end them. */
  function Number(s: seq<Byte>, i: nat, x: int, hex: bool): (r: Scanned)
    requires i <= |s|
    ensures i <= r.i <= |s|
    decreases |s| - i
  {
    if i == |s| then Scanned(x, i)
    else
      var d := Digit(s[i], hex);
      if d.Some? then Number(s, i + 1, Shift(x, d.value, hex), hex)
      else Scanned(x, if s[i] == SEMI then i + 1 else i)
  }

  /** The end of the longest name from i on, with the semicolon that may end it. */
  function NameEnd(s: seq<Byte>, i: nat): (r: nat)
    requires i <= |s|
    ensures i <= r <= |s|
    decreases |s| - i
  {
    if i == |s| then i
    else if IsAlnum(s[i]) then NameEnd(s, i + 1)
    else if s[i] == SEMI then i + 1
    else i
  }

  /** The longest prefix of name, of 2 to j bytes, that is in the table; 0 if none. */
  function LongestPrefix(name: seq<Byte>, j: nat, one: map<seq<Byte>, int>): (k: nat)
    requires j <= |name|
    ensures k <= j && (k > 0 ==> k > 1 && name[..k] in one)
  {
    if j <= 1 then 0
    else if name[..j] in one then j
    else LongestPrefix(name, j - 1, one)
  }

  /** Section 13.2.5.80: the numbers that stand for another character. */
  function Replaced(x: int): int {
    if 0x80 <= x <= 0x9F then REPLACEMENTS[x - 0x80]
    else if x == 0 || 0xD800 <= x <= 0xDFFF || x > 0x10FFFF then 0xFFFD
    else x
  }

  function Numeric(s: seq<Byte>): (p: Piece)
    requires |s| > 3
    ensures 0 < p.n <= |s| && |p.out| <= p.n
  {
    var hex := s[2] == 120 || s[2] == 88;
    var r := Number(s, if hex then 3 else 2, 0, hex);
    if r.i <= 3 then Piece([s[0]], 1) else Piece(Encode(Replaced(r.x)), r.i)
  }

  function Named(s: seq<Byte>, t: Tables): (p: Piece)
    requires |s| > 1
  {
    var i := NameEnd(s, 1);
    var name := s[1..i];
    if name == [] then Piece(s[..i], i)
    else if name in t.one then Piece(Encode(t.one[name]), i)
    else if name in t.two then Piece(Encode(t.two[name].0) + Encode(t.two[name].1), i)
    else
      var k := LongestPrefix(name, Min(|name| - 1, LONGEST_WITHOUT_SEMICOLON), t.one);
      if k > 0 then Piece(Encode(t.one[name[..k]]), k + 1) else Piece(s[..i], i)
  }

  function Entity(s: seq<Byte>, t: Tables): Piece
    requires |s| > 0
  {
    if |s| <= 1 then Piece([s[0]], 1)
    else if s[1] == HASH then if |s| <= 3 then Piece([s[0]], 1) else Numeric(s)
    else Named(s, t)
  }

  /** A reference never stands for more bytes than it has. */
  lemma EntityShrinks(s: seq<Byte>, t: Tables)
    requires |s| > 0 && TablesOk(t)
    ensures var p := Entity(s, t); 0 < p.n <= |s| && |p.out| <= p.n
  {
    if |s| > 1 && s[1] != HASH {
      hide Encode, NameEnd;
      var name := s[1..NameEnd(s, 1)];
      if name != [] && name !in t.one && name !in t.two {
        var k := LongestPrefix(name, Min(|name| - 1, LONGEST_WITHOUT_SEMICOLON), t.one);
        assert k > 0 ==> |name[..k]| == k;
      }
    }
  }

  function Unescape(s: seq<Byte>, t: Tables): seq<Byte>
    decreases |s|
  {
    if s == [] then []
    else if s[0] != AMP then [s[0]] + Unescape(s[1..], t)
    else
      var p := Entity(s, t);
      if 0 < p.n <= |s| then p.out + Unescape(s[p.n..], t) else []
  }

  // ----- in place

  /** b[dst:] now begins with w; the bytes before dst and those from hi on are unchanged. */
  ghost predicate Put(before: seq<Byte>, after: seq<Byte>, dst: nat, w: seq<Byte>, hi: nat) {
    && |after| == |before| && dst + |w| <= hi <= |before|
    && after[..dst + |w|] == before[..dst] + w
    && after[hi..] == before[hi..]
  }

  /** utf8.EncodeRune(b[dst:], r) */
  method EncodeRune(b: array<Byte>, dst: nat, r: int) returns (n: nat)
    requires dst + |Encode(r)| <= b.Length
    modifies b
    ensures n == |Encode(r)| && Put(old(b[..]), b[..], dst, Encode(r), dst + n)
  {
    var e := Encode(r);
    n := |e|;
    forall k | 0 <= k < n { b[dst + k] := e[k]; }
  }

  /** copy(b[dst:], src), where src may be a later part of b. */
  method CopyDown(b: array<Byte>, dst: nat, src: seq<Byte>)
    requires dst + |src| <= b.Length
    modifies b
    ensures Put(old(b[..]), b[..], dst, src, dst + |src|)
  {
    forall k | 0 <= k < |src| { b[dst + k] := src[k]; }
  }

  lemma PutWider(before: seq<Byte>, after: seq<Byte>, dst: nat, w: seq<Byte>, hi: nat, hi2: nat)
    requires Put(before, after, dst, w, hi) && hi <= hi2 <= |before|
    ensures Put(before, after, dst, w, hi2)
  {
    assert after[hi2..] == after[hi..][hi2 - hi..];
    assert before[hi2..] == before[hi..][hi2 - hi..];
  }

  lemma PutTwice(b0: seq<Byte>, b1: seq<Byte>, b2: seq<Byte>, dst: nat, w: seq<Byte>, w2: seq<Byte>)
    requires Put(b0, b1, dst, w, dst + |w|) && Put(b1, b2, dst + |w|, w2, dst + |w| + |w2|)
    ensures Put(b0, b2, dst, w + w2, dst + |w| + |w2|)
  {
    PutWider(b0, b1, dst, w, dst + |w|, dst + |w| + |w2|);
    assert b0[..dst] + (w + w2) == (b0[..dst] + w) + w2;
  }

  method ScanNumber(s: seq<Byte>, i0: nat, hex: bool) returns (x: int, i: nat)
    requires i0 <= |s|
    ensures Scanned(x, i) == Number(s, i0, 0, hex)
  {
    i, x := i0, 0;
    while i < |s|
      invariant i0 <= i <= |s| && Number(s, i, x, hex) == Number(s, i0, 0, hex)
      decreases |s| - i
    {
      var c := s[i];
      i := i + 1;
      var d := Digit(c, hex);
      if d.Some? {
        x := Shift(x, d.value, hex);
        continue;
      }
      if c != SEMI { i := i - 1; }
      break;
    }
  }

  method ScanName(s: seq<Byte>) returns (i: nat)
    requires |s| > 1
    ensures i == NameEnd(s, 1)
  {
    i := 1;
    while i < |s|
      invariant 1 <= i <= |s| && NameEnd(s, i) == NameEnd(s, 1)
      decreases |s| - i
    {
      var c := s[i];
      i := i + 1;
      if IsAlnum(c) { continue; }
      if c != SEMI { i := i - 1; }
      break;
    }
  }

  /** p has been written at dst, and what follows the reference is as it was. */
  ghost predicate Wrote(before: seq<Byte>, after: seq<Byte>, dst: nat, src: nat, p: Piece, dst1: nat, src1: nat) {
    dst1 == dst + |p.out| && src1 == src + p.n && Put(before, after, dst, p.out, src1)
  }

  method PutRune(b: array<Byte>, dst: nat, src: nat, r: int, n: nat) returns (dst1: nat, src1: nat)
    requires dst <= src && |Encode(r)| <= n && src + n <= b.Length
    modifies b
    ensures Wrote(old(b[..]), b[..], dst, src, Piece(Encode(r), n), dst1, src1)
  {
    hide Encode, Put;
    var k := EncodeRune(b, dst, r);
    PutWider(old(b[..]), b[..], dst, Encode(r), dst + k, src + n);
    return dst + k, src + n;
  }

  method PutTwo(b: array<Byte>, dst: nat, src: nat, x: (int, int), n: nat) returns (dst1: nat, src1: nat)
    requires dst <= src && |Encode(x.0)| + |Encode(x.1)| <= n && src + n <= b.Length
    modifies b
    ensures Wrote(old(b[..]), b[..], dst, src, Piece(Encode(x.0) + Encode(x.1), n), dst1, src1)
  {
    hide Encode, Put;
    var k := EncodeRune(b, dst, x.0);
    ghost var mid := b[..];
    var k2 := EncodeRune(b, dst + k, x.1);
    PutTwice(old(b[..]), mid, b[..], dst, Encode(x.0), Encode(x.1));
    PutWider(old(b[..]), b[..], dst, Encode(x.0) + Encode(x.1), dst + k + k2, src + n);
    return dst + k + k2, src + n;
  }

  /** The first n bytes of the reference are copied as they are. */
  method PutText(b: array<Byte>, dst: nat, src: nat, n: nat) returns (dst1: nat, src1: nat)
    requires dst <= src && 0 < n && src + n <= b.Length
    modifies b
    ensures Wrote(old(b[..]), b[..], dst, src, Piece(old(b[src..])[..n], n), dst1, src1)
  {
    hide Put;
    var text := b[src..][..n];
    CopyDown(b, dst, text);
    PutWider(old(b[..]), b[..], dst, text, dst + n, src + n);
    return dst + n, src + n;
  }

  method UnescapeEntity(b: array<Byte>, dst: nat, src: nat, t: Tables) returns (dst1: nat, src1: nat)
    requires TablesOk(t) && dst <= src < b.Length
    modifies b
    ensures Wrote(old(b[..]), b[..], dst, src, Entity(old(b[src..]), t), dst1, src1)
  {
    hide Encode, NameEnd, Number, Wrote;
    var s := b[src..];
    if |s| <= 1 {
      dst1, src1 := PutText(b, dst, src, 1);
      assert s[..1] == [s[0]];
    } else if s[1] == HASH {
      if |s| <= 3 {
        dst1, src1 := PutText(b, dst, src, 1);
        assert s[..1] == [s[0]];
        return;
      }
      var hex := s[2] == 120 || s[2] == 88;
      var x, i := ScanNumber(s, if hex then 3 else 2, hex);
      if i <= 3 {
        dst1, src1 := PutText(b, dst, src, 1);
        assert s[..1] == [s[0]];
        return;
      }
      dst1, src1 := PutRune(b, dst, src, Replaced(x), i);
    } else {
      dst1, src1 := UnescapeName(b, dst, src, t);
    }
  }

  method UnescapeName(b: array<Byte>, dst: nat, src: nat, t: Tables) returns (dst1: nat, src1: nat)
    requires TablesOk(t) && dst <= src < b.Length - 1
    modifies b
    ensures Wrote(old(b[..]), b[..], dst, src, Named(old(b[src..]), t), dst1, src1)
  {
    hide Encode, NameEnd, Wrote;
    var s := b[src..];
    var i := ScanName(s);
    var name := s[1..i];
    if |name| == 0 {
      dst1, src1 := PutText(b, dst, src, i);
      return;
    }
    if name in t.one {
      dst1, src1 := PutRune(b, dst, src, t.one[name], i);
      return;
    }
    if name in t.two {
      dst1, src1 := PutTwo(b, dst, src, t.two[name], i);
      return;
    }
    var j: nat := Min(|name| - 1, LONGEST_WITHOUT_SEMICOLON);
    while j > 1
      invariant j <= |name| && LongestPrefix(name, j, t.one) ==
          LongestPrefix(name, Min(|name| - 1, LONGEST_WITHOUT_SEMICOLON), t.one)
    {
      if name[..j] in t.one {
        dst1, src1 := PutRune(b, dst, src, t.one[name[..j]], j + 1);
        return;
      }
      j := j - 1;
    }
    dst1, src1 := PutText(b, dst, src, i);
  }

  lemma {:induction false} PlainPrefix(s: seq<Byte>, i: nat, t: Tables)
    requires i <= |s| && AMP !in s[..i]
    ensures Unescape(s, t) == s[..i] + Unescape(s[i..], t)
    decreases i
  {
    hide Entity;
    if i == 0 {
      assert s[0..] == s;
    } else {
      assert s[..i][0] == s[0];
      assert s[..i] == [s[0]] + s[1..][..i - 1];
      assert s[1..][i - 1..] == s[i..];
      PlainPrefix(s[1..], i - 1, t);
    }
  }

  /** One turn of the loop: i plain bytes copied from s, then a reference decoded. */
  lemma Turn(s: seq<Byte>, t: Tables, b0: seq<Byte>, b1: seq<Byte>, b2: seq<Byte>,
             dst: nat, src: nat, i: nat, p: Piece, dst1: nat, src1: nat)
    requires |b0| == |s| && dst <= src && src + i < |s| && b0[src..] == s[src..]
    requires b0[..dst] + Unescape(s[src..], t) == Unescape(s, t)
    requires AMP !in s[src..src + i] && s[src + i] == AMP && p == Entity(s[src + i..], t) && 0 < p.n <= |s| - src - i
    requires Put(b0, b1, dst, s[src..src + i], src + i)
    requires Wrote(b1, b2, dst + i, src + i, p, dst1, src1)
    ensures b2[src1..] == s[src1..] && b2[..dst1] + Unescape(s[src1..], t) == Unescape(s, t)
  {
    hide *;
    var plain := s[src..src + i];
    UnescapeAt(s, src, i, p, t);
    WroteIs(b1, b2, dst + i, src + i, p, dst1, src1);
    TwoPuts(b0, b1, b2, dst, plain, src + i, p.out, src1);
    Tail(s, b0, b1, b2, src, src + i, src1);
    Fourfold(b0[..dst], plain, p.out, Unescape(s[src1..], t));
  }

  lemma WroteIs(before: seq<Byte>, after: seq<Byte>, dst: nat, src: nat, p: Piece, dst1: nat, src1: nat)
    requires Wrote(before, after, dst, src, p, dst1, src1)
    ensures dst1 == dst + |p.out| && src1 == src + p.n && Put(before, after, dst, p.out, src1)
  {
  }

  lemma UnescapeAt(s: seq<Byte>, src: nat, i: nat, p: Piece, t: Tables)
    requires src + i < |s| && AMP !in s[src..src + i] && s[src + i] == AMP
    requires p == Entity(s[src + i..], t) && 0 < p.n <= |s| - src - i
    ensures Unescape(s[src..], t) == s[src..src + i] + (p.out + Unescape(s[src + i + p.n..], t))
  {
    hide Entity;
    var u := s[src..];
    assert u[..i] == s[src..src + i] && u[i..] == s[src + i..];
    PlainPrefix(u, i, t);
    assert s[src + i..][p.n..] == s[src + i + p.n..];
  }

  lemma TwoPuts(b0: seq<Byte>, b1: seq<Byte>, b2: seq<Byte>, dst: nat, w: seq<Byte>, j: nat, w2: seq<Byte>, k: nat)
    requires Put(b0, b1, dst, w, j) && Put(b1, b2, dst + |w|, w2, k) && j <= k
    ensures |b0| == |b1| == |b2| && j <= k <= |b0| && b1[j..] == b0[j..] && b2[k..] == b1[k..]
    ensures b2[..dst + |w| + |w2|] == (b0[..dst] + w) + w2
  {
  }

  lemma Tail(s: seq<Byte>, b0: seq<Byte>, b1: seq<Byte>, b2: seq<Byte>, i: nat, j: nat, k: nat)
    requires i <= j <= k <= |s| == |b0| == |b1| == |b2|
    requires b0[i..] == s[i..] && b1[j..] == b0[j..] && b2[k..] == b1[k..]
    ensures b2[k..] == s[k..]
  {
    assert b1[k..] == b1[j..][k - j..];
    assert b0[k..] == b0[j..][k - j..] == b0[i..][k - i..];
    assert s[k..] == s[i..][k - i..];
  }

  lemma Fourfold(a: seq<Byte>, b: seq<Byte>, c: seq<Byte>, d: seq<Byte>)
    ensures ((a + b) + c) + d == a + (b + (c + d))
  {
  }

  lemma NoText(t: Tables)
    ensures Unescape([], t) == []
  {
  }

  lemma NoEntity(s: seq<Byte>, t: Tables)
    requires AMP !in s
    ensures Unescape(s, t) == s
  {
    PlainPrefix(s, |s|, t);
    assert s[..|s|] == s && s[|s|..] == [];
  }

  method UnescapeString(s: seq<Byte>, t: Tables) returns (r: seq<Byte>)
    requires TablesOk(t)
    ensures r == Unescape(s, t)
  {
    hide Entity, Unescape, Encode, Put, Wrote, TablesOk, IndexByte;
    var first := IndexByte(s, AMP);
    if first < 0 {
      NoEntity(s, t);
      return s;
    }
    var b := new Byte[|s|](k requires 0 <= k < |s| => s[k]);
    assert b[..] == s;
    var dst: nat, src: nat := FirstEntity(s, b, first, t);
    while src < |s|
      invariant dst <= src <= |s| == b.Length && b[src..] == s[src..]
      invariant b[..dst] + Unescape(s[src..], t) == Unescape(s, t)
      decreases |s| - src
    {
      var i := if s[src] == AMP then 0 else IndexByte(s[src..], AMP);
      if i < 0 {
        dst := CopyRest(s, b, dst, src, t);
        src := |s|;
        break;
      }
      dst, src := NextEntity(s, b, dst, src, i, t);
    }
    assert s[src..] == [];
    NoText(t);
    return b[..dst];
  }

  /** No prefix is copied: it is already in its place. */
  method FirstEntity(s: seq<Byte>, b: array<Byte>, i: nat, t: Tables) returns (dst: nat, src: nat)
    requires TablesOk(t) && b[..] == s && i < |s| && s[i] == AMP && AMP !in s[..i]
    modifies b
    ensures dst <= src <= |s| && i < src && b[src..] == s[src..]
    ensures b[..dst] + Unescape(s[src..], t) == Unescape(s, t)
  {
    hide Entity, Unescape, Encode, Wrote, TablesOk;
    EntityShrinks(s[i..], t);
    dst, src := UnescapeEntity(b, i, i, t);
    assert Put(s, s, 0, s[0..i], i);
    hide Put;
    assert s[0..] == s && s[..0] == [];
    Turn(s, t, s, s, b[..], 0, 0, i, Entity(s[i..], t), dst, src);
    InRange(s, b[..], i, i, Entity(s[i..], t), dst, src);
  }

  /** No further reference: the rest is copied. */
  method CopyRest(s: seq<Byte>, b: array<Byte>, dst: nat, src: nat, t: Tables) returns (dst1: nat)
    requires b.Length == |s| && dst <= src <= |s| && AMP !in s[src..]
    requires b[..dst] + Unescape(s[src..], t) == Unescape(s, t)
    modifies b
    ensures dst1 <= b.Length && b[..dst1] == Unescape(s, t)
  {
    hide Entity;
    PlainPrefix(s[src..], |s| - src, t);
    assert s[src..][..|s| - src] == s[src..] && s[src..][|s| - src..] == [];
    CopyDown(b, dst, s[src..]);
    dst1 := dst + |s[src..]|;
  }

  lemma InRange(before: seq<Byte>, after: seq<Byte>, dst: nat, src: nat, p: Piece, dst1: nat, src1: nat)
    requires Wrote(before, after, dst, src, p, dst1, src1)
    ensures dst1 <= src1 <= |before| == |after| && src1 == src + p.n
  {
  }

  /** Copy the i plain bytes before the next reference, and decode it. */
  method NextEntity(s: seq<Byte>, b: array<Byte>, dst: nat, src: nat, i: nat, t: Tables) returns (dst1: nat, src1: nat)
    requires TablesOk(t) && b.Length == |s| && dst <= src && src + i < |s| && b[src..] == s[src..]
    requires b[..dst] + Unescape(s[src..], t) == Unescape(s, t)
    requires s[src + i] == AMP && AMP !in s[src..src + i]
    modifies b
    ensures dst1 <= src1 <= |s| && src < src1 && b[src1..] == s[src1..]
    ensures b[..dst1] + Unescape(s[src1..], t) == Unescape(s, t)
  {
    hide Entity, Unescape, Encode, Wrote, TablesOk;
    ghost var b0 := b[..];
    if i > 0 {
      CopyDown(b, dst, s[src..src + i]);
    }
    ghost var b1 := b[..];
    assert Put(b0, b1, dst, s[src..src + i], src + i);
    hide Put;
    Suffix(s, b0, b1, src, src + i);
    EntityShrinks(s[src + i..], t);
    dst1, src1 := UnescapeEntity(b, dst + i, src + i, t);
    Turn(s, t, b0, b1, b[..], dst, src, i, Entity(s[src + i..], t), dst1, src1);
    InRange(b1, b[..], dst + i, src + i, Entity(s[src + i..], t), dst1, src1);
  }

  lemma Suffix(s: seq<Byte>, b0: seq<Byte>, b1: seq<Byte>, i: nat, j: nat)
    requires i <= j <= |s| == |b0| == |b1| && b0[i..] == s[i..] && b1[j..] == b0[j..]
    ensures b1[j..] == s[j..]
  {
    assert b0[j..] == b0[i..][j - i..];
    assert s[j..] == s[i..][j - i..];
  }

  // ----- EscapeString

  /** htmlEscaper's five replacements. */
  function EscapeByte(c: Byte): (e: seq<Byte>)
    ensures e != []
  {
    if c == AMP then [AMP] + AMP_NAME
    else if c == 39 then [AMP, HASH, 51, 57, SEMI]
    else if c == 60 then [AMP] + LT_NAME
    else if c == 62 then [AMP] + GT_NAME
    else if c == 34 then [AMP, HASH, 51, 52, SEMI]
    else [c]
  }

  function EscapeString(s: seq<Byte>): seq<Byte> {
    if s == [] then [] else EscapeByte(s[0]) + EscapeString(s[1..])
  }

  lemma NumericByte(hi: Byte, lo: Byte, rest: seq<Byte>)
    requires IsDigit(hi) && IsDigit(lo)
    ensures Number([AMP, HASH, hi, lo, SEMI] + rest, 2, 0, false) == Scanned(10 * (hi - 48) + (lo - 48), 5)
  {
    var s := [AMP, HASH, hi, lo, SEMI] + rest;
    assert Number(s, 4, 10 * (hi - 48) + (lo - 48), false) == Scanned(10 * (hi - 48) + (lo - 48), 5);
    assert Number(s, 3, hi - 48, false) == Number(s, 4, 10 * (hi - 48) + (lo - 48), false);
    assert Number(s, 2, 0, false) == Number(s, 3, hi - 48, false);
  }

  lemma ShortName(name: seq<Byte>, rest: seq<Byte>, i: nat)
    requires 1 <= i <= |name| && name[|name| - 1] == SEMI && forall k :: 0 <= k < |name| - 1 ==> IsAlnum(name[k])
    ensures NameEnd([AMP] + name + rest, i) == |name| + 1
    decreases |name| - i
  {
    var s := [AMP] + name + rest;
    assert s[i] == name[i - 1];
    if i < |name| { ShortName(name, rest, i + 1); } else { assert !IsAlnum(SEMI); }
  }

  lemma NamedByte(name: seq<Byte>, rest: seq<Byte>, t: Tables)
    requires name != [] && name[|name| - 1] == SEMI && forall k :: 0 <= k < |name| - 1 ==> IsAlnum(name[k])
    requires name in t.one && name[0] != HASH
    ensures Entity([AMP] + name + rest, t) == Piece(Encode(t.one[name]), |name| + 1)
  {
    hide NameEnd, LongestPrefix, Encode;
    ShortName(name, rest, 1);
    assert ([AMP] + name + rest)[1..|name| + 1] == name;
  }

  lemma EscapedEntity(c: Byte, rest: seq<Byte>, t: Tables)
    requires TablesOk(t) && c in {AMP, 34, 39, 60, 62}
    ensures Entity(EscapeByte(c) + rest, t) == Piece([c], |EscapeByte(c)|) && EscapeByte(c)[0] == AMP
  {
    hide Number, Named;
    if c == 39 {
      NumericByte(51, 57, rest);
    } else if c == 34 {
      NumericByte(51, 52, rest);
    } else {
      hide Entity;
      NamedByte(if c == AMP then AMP_NAME else if c == 60 then LT_NAME else GT_NAME, rest, t);
    }
  }

  /** What EscapeByte writes for one byte is read back as that byte. */
  lemma UnescapeByte(c: Byte, rest: seq<Byte>, t: Tables)
    requires TablesOk(t)
    ensures Unescape(EscapeByte(c) + rest, t) == [c] + Unescape(rest, t)
  {
    var s := EscapeByte(c) + rest;
    if c in {AMP, 34, 39, 60, 62} {
      EscapedEntity(c, rest, t);
      hide EscapeByte, Entity, TablesOk;
      assert s[|EscapeByte(c)|..] == rest;
    } else {
      hide Entity, TablesOk;
      assert s[1..] == rest;
    }
  }

  /** UnescapeString(EscapeString(s)) == s for every byte string. */
  lemma {:induction false} RoundTrip(s: seq<Byte>, t: Tables)
    requires TablesOk(t)
    ensures Unescape(EscapeString(s), t) == s
  {
    hide EscapeByte, TablesOk;
    if s == [] {
    } else {
      UnescapeByte(s[0], EscapeString(s[1..]), t);
      RoundTrip(s[1..], t);
    }
  }

  /** None of the characters that end a text or an attribute survives. */
  lemma {:induction false} EscapedIsSafe(s: seq<Byte>, k: nat)
    requires k < |EscapeString(s)|
    ensures EscapeString(s)[k] !in {34, 39, 60, 62}
  {
    var e := EscapeByte(s[0]);
    if k >= |e| { EscapedIsSafe(s[1..], k - |e|); }
  }

  /** The five characters are written as documented: &lt; &gt; &amp; &#39; &#34; */
  lemma EscapedForms()
    ensures EscapeByte(60) == [38, 108, 116, 59] && EscapeByte(62) == [38, 103, 116, 59]
    ensures EscapeByte(38) == [38, 97, 109, 112, 59]
    ensures EscapeByte(39) == [38, 35, 51, 57, 59] && EscapeByte(34) == [38, 35, 51, 52, 59]
  {
  }

  /** Other characters are left alone. */
  lemma {:induction false} NothingToEscape(s: seq<Byte>)
    requires forall k :: 0 <= k < |s| ==> s[k] !in {34, 38, 39, 60, 62}
    ensures EscapeString(s) == s
  {
    if s != [] { NothingToEscape(s[1..]); }
  }
}
