/** unicode/utf8: section 3 of RFC 3629. */
module Utf8 {

  import opened Common

  const RUNE_SELF := 0x80
  const RUNE_ERROR := 0xFFFD

  datatype Decoded = Decoded(r: int, n: nat)

  predicate ValidRune(r: int) { 0 <= r < 0xD800 || 0xDFFF < r <= 0x10FFFF }

  predicate IsCont(b: Byte) { 0x80 <= b <= 0xBF }

  /** Length of the sequence that b starts; 0 for a byte that starts none. */
  function Length(b: Byte): (n: nat)
    ensures n <= 4
  {
    if b < 0x80 then 1
    else if 0xC2 <= b <= 0xDF then 2
    else if 0xE0 <= b <= 0xEF then 3
    else if 0xF0 <= b <= 0xF4 then 4
    else 0
  }

  /** The second byte excludes overlong forms, surrogates and values past 0x10FFFF. */
  predicate Accepts(b: Byte, c: Byte) {
    && (if b == 0xE0 then 0xA0 else if b == 0xF0 then 0x90 else 0x80) <= c
    && c <= (if b == 0xED then 0x9F else if b == 0xF4 then 0x8F else 0xBF)
  }

  function Less(b: Byte, k: int): int { b as int - k }

  /** The six payload bits of a continuation byte. */
  function Six(b: Byte): int { b as int - 0x80 }

  function Decode(s: seq<Byte>): (d: Decoded)
    ensures d.n <= |s| && (d.n == 0 <==> s == [])
  {
    if s == [] then Decoded(RUNE_ERROR, 0)
    else
      var n := Length(s[0]);
      if n == 1 then Decoded(s[0], 1)
      else if n == 0 || |s| < n || !Accepts(s[0], s[1]) then Decoded(RUNE_ERROR, 1)
      else if n == 2 then Decoded(Less(s[0], 0xC0) * 64 + Six(s[1]), 2)
      else if !IsCont(s[2]) then Decoded(RUNE_ERROR, 1)
      else if n == 3 then Decoded(Less(s[0], 0xE0) * 4096 + Six(s[1]) * 64 + Six(s[2]), 3)
      else if !IsCont(s[3]) then Decoded(RUNE_ERROR, 1)
      else Decoded(Less(s[0], 0xF0) * 262144 + Six(s[1]) * 4096 + Six(s[2]) * 64 + Six(s[3]), 4)
  }

  function Encode(r: int): (s: seq<Byte>)
    ensures 1 <= |s| <= 4 && (|s| == 1 <==> 0 <= r < 0x80)
  {
    if 0 <= r < 0x80 then [r]
    else if 0x80 <= r < 0x800 then [0xC0 + r / 64, 0x80 + r % 64]
    else if !ValidRune(r) then [0xEF, 0xBF, 0xBD]
    else if r < 0x10000 then [0xE0 + r / 4096, 0x80 + r / 64 % 64, 0x80 + r % 64]
    else [0xF0 + r / 262144, 0x80 + r / 4096 % 64, 0x80 + r / 64 % 64, 0x80 + r % 64]
  }

  lemma Digits(r: nat)
    ensures r == r / 64 * 64 + r % 64
    ensures r / 64 / 64 == r / 4096 && r == r / 4096 * 4096 + r / 64 % 64 * 64 + r % 64
    ensures r / 4096 / 64 == r / 262144
    ensures r == r / 262144 * 262144 + r / 4096 % 64 * 4096 + r / 64 % 64 * 64 + r % 64
  {
  }

  lemma DecodeEncode(r: int, t: seq<Byte>)
    requires ValidRune(r)
    ensures Decode(Encode(r) + t) == Decoded(r, |Encode(r)|)
  {
    Digits(r);
  }

  lemma Split64(a: nat, b: nat)
    requires b < 64
    ensures (a * 64 + b) / 64 == a && (a * 64 + b) % 64 == b
  {
  }

  lemma Decode2(s: seq<Byte>)
    requires Decode(s).n == 2
    ensures ValidRune(Decode(s).r) && s[..2] == Encode(Decode(s).r)
  {
    Split64(Less(s[0], 0xC0), Six(s[1]));
  }

  lemma Decode3(s: seq<Byte>)
    requires Decode(s).n == 3
    ensures ValidRune(Decode(s).r) && s[..3] == Encode(Decode(s).r)
  {
    var h := Less(s[0], 0xE0) * 64 + Six(s[1]);
    Split64(Less(s[0], 0xE0), Six(s[1]));
    Split64(h, Six(s[2]));
    Digits(Decode(s).r);
    assert Decode(s).r == h * 64 + Six(s[2]);
  }

  lemma Decode4(s: seq<Byte>)
    requires Decode(s).n == 4
    ensures ValidRune(Decode(s).r) && s[..4] == Encode(Decode(s).r)
  {
    var g := Less(s[0], 0xF0) * 64 + Six(s[1]);
    var h := g * 64 + Six(s[2]);
    Split64(Less(s[0], 0xF0), Six(s[1]));
    Split64(g, Six(s[2]));
    Split64(h, Six(s[3]));
    Digits(Decode(s).r);
    assert Decode(s).r == h * 64 + Six(s[3]);
  }

  lemma EncodeDecode(s: seq<Byte>)
    requires s != []
    ensures var d := Decode(s); ValidRune(d.r) && (d.n == 1 && d.r >= 0x80 ==> d.r == RUNE_ERROR)
    ensures var d := Decode(s); d.n > 1 || d.r != RUNE_ERROR ==> s[..d.n] == Encode(d.r)
  {
    var n := Decode(s).n;
    if n == 2 { Decode2(s); } else if n == 3 { Decode3(s); } else if n == 4 { Decode4(s); }
  }

  /** Only continuation bytes follow the first byte of a sequence, and none begins one. */
  lemma Continues(s: seq<Byte>, j: nat)
    requires 0 < j < Decode(s).n
    ensures IsCont(s[j])
  {
  }

  lemma Starts(r: int)
    ensures !IsCont(Encode(r)[0])
  {
  }

  // ----- the encoding by its order and lengths

  /** Section 3 of RFC 3629: the number of bytes, by range; what is no code point is written
      as U+FFFD. */
  lemma EncodedLength(r: int)
    ensures 0 <= r <= 0x7F ==> |Encode(r)| == 1
    ensures 0x80 <= r <= 0x7FF ==> |Encode(r)| == 2
    ensures 0x800 <= r <= 0xFFFF ==> |Encode(r)| == 3
    ensures 0x10000 <= r <= 0x10FFFF ==> |Encode(r)| == 4
    ensures !ValidRune(r) ==> Encode(r) == Encode(RUNE_ERROR)
  {
  }

  /** The order of byte strings. */
  predicate Below(a: seq<Byte>, b: seq<Byte>) {
    if b == [] then false
    else if a == [] then true
    else a[0] < b[0] || (a[0] == b[0] && Below(a[1..], b[1..]))
  }

  lemma BelowAt(a: seq<Byte>, b: seq<Byte>, k: nat)
    requires k < |a| && k < |b| && a[..k] == b[..k] && a[k] < b[k]
    ensures Below(a, b)
  {
    if k > 0 {
      assert a[..k][0] == b[..k][0];
      assert a[1..][..k - 1] == a[..k][1..] && b[1..][..k - 1] == b[..k][1..];
      BelowAt(a[1..], b[1..], k - 1);
    }
  }

  lemma LeadByte(r: int)
    requires ValidRune(r)
    ensures var e := Encode(r);
            && (|e| == 1 ==> e[0] < 0x80) && (|e| == 2 ==> 0xC0 <= e[0] < 0xE0)
            && (|e| == 3 ==> 0xE0 <= e[0] < 0xF0) && (|e| == 4 ==> 0xF0 <= e[0])
  {
  }

  /** Numbers are ordered as their digits to base 64. */
  lemma DigitOrder(a: nat, b: nat, h: nat, g: nat)
    requires a < b && h == a / 64 && g == b / 64
    ensures h < g || (h == g && a % 64 < b % 64)
  {
  }

  lemma Below2(x: seq<Byte>, y: seq<Byte>)
    requires |x| == |y| == 2 && (x[0] < y[0] || (x[0] == y[0] && x[1] < y[1]))
    ensures Below(x, y)
  {
    BelowAt(x, y, if x[0] < y[0] then 0 else 1);
  }

  lemma Below3(x: seq<Byte>, y: seq<Byte>)
    requires |x| == |y| == 3
    requires x[0] < y[0] || (x[0] == y[0] && (x[1] < y[1] || (x[1] == y[1] && x[2] < y[2])))
    ensures Below(x, y)
  {
    if x[0] == y[0] { Below2(x[1..], y[1..]); }
  }

  lemma Below4(x: seq<Byte>, y: seq<Byte>)
    requires |x| == |y| == 4
    requires x[0] < y[0] ||
      (x[0] == y[0] && (x[1] < y[1] || (x[1] == y[1] && (x[2] < y[2] || (x[2] == y[2] && x[3] < y[3])))))
    ensures Below(x, y)
  {
    if x[0] == y[0] { Below3(x[1..], y[1..]); }
  }

  lemma SameTwo(a: int, b: int)
    requires 0x80 <= a < b < 0x800
    ensures Below(Encode(a), Encode(b))
  {
    DigitOrder(a, b, a / 64, b / 64);
    hide Below;
    Below2(Encode(a), Encode(b));
  }

  lemma SameThree(a: int, b: int)
    requires 0x800 <= a < b < 0x10000 && ValidRune(a) && ValidRune(b)
    ensures Below(Encode(a), Encode(b))
  {
    var h, g := a / 64, b / 64;
    DigitOrder(a, b, h, g);
    if h < g { DigitOrder(h, g, h / 64, g / 64); }
    Digits(a);
    Digits(b);
    hide Below;
    Below3(Encode(a), Encode(b));
  }

  lemma SameFour(a: int, b: int)
    requires 0x10000 <= a < b <= 0x10FFFF
    ensures Below(Encode(a), Encode(b))
  {
    var h, g := a / 64, b / 64;
    DigitOrder(a, b, h, g);
    if h < g {
      DigitOrder(h, g, h / 64, g / 64);
      if h / 64 < g / 64 { DigitOrder(h / 64, g / 64, h / 64 / 64, g / 64 / 64); }
    }
    Digits(a);
    Digits(b);
    hide Below;
    Below4(Encode(a), Encode(b));
  }

  lemma SameLength(a: int, b: int)
    requires ValidRune(a) && ValidRune(b) && a < b && |Encode(a)| == |Encode(b)|
    ensures Below(Encode(a), Encode(b))
  {
    EncodedLength(a);
    EncodedLength(b);
    if b < 0x80 {
      BelowAt(Encode(a), Encode(b), 0);
    } else {
      hide Encode, Below;
      if b < 0x800 { SameTwo(a, b); } else if b < 0x10000 { SameThree(a, b); } else { SameFour(a, b); }
    }
  }

  /** Encodings are ordered as their code points. */
  lemma EncodingKeepsOrder(a: int, b: int)
    requires ValidRune(a) && ValidRune(b) && a < b
    ensures Below(Encode(a), Encode(b))
  {
    EncodedLength(a);
    EncodedLength(b);
    if |Encode(a)| == |Encode(b)| {
      SameLength(a, b);
    } else {
      LeadByte(a);
      LeadByte(b);
      hide Encode;
      BelowAt(Encode(a), Encode(b), 0);
    }
  }
}
