/** html/escape.go against the standard: numeric references (sections 13.2.5.75 to
    13.2.5.80 of the WHATWG HTML standard) and named ones (section 13.2.5.73). */
module HtmlStandard {

  import opened Common
  import opened Utf8
  import opened Html

  // ----- numeric references

  /** Digits from i on, of which the value is never cut, and the semicolon that may end them. */
  function Digits(s: seq<Byte>, i: nat, x: nat, hex: bool): (r: Scanned)
    requires i <= |s|
    ensures i <= r.i <= |s| && r.x >= x
    decreases |s| - i
  {
    if i == |s| then Scanned(x, i)
    else
      var d := Digit(s[i], hex);
      if d.Some? && d.value >= 0 then Digits(s, i + 1, (if hex then 16 else 10) * x + d.value, hex)
      else Scanned(x, if s[i] == SEMI then i + 1 else i)
  }

  /** The character that a number stands for. */
  function Char(x: int): int {
    if x == 0 || x > 0x10FFFF || 0xD800 <= x <= 0xDFFF then 0xFFFD
    else if 0x80 <= x <= 0x9F then REPLACEMENTS[x - 0x80]
    else x
  }

  predicate IsHex(s: seq<Byte>) { |s| > 2 && (s[2] == 120 || s[2] == 88) }

  /** Where the digits should begin. */
  function From(s: seq<Byte>): nat { if IsHex(s) then 3 else 2 }

  predicate IsNumeric(s: seq<Byte>) { |s| > 1 && s[0] == AMP && s[1] == HASH }

  /** A reference needs one digit, and no semicolon; without a digit the ampersand is text
      (TextStays), and so are the # and the x after it. */
  function Standard(s: seq<Byte>): Piece
    requires IsNumeric(s)
  {
    var from := From(s);
    if from == |s| || Digit(s[from], IsHex(s)).None? then Piece([AMP], 1)
    else var r := Digits(s, from, 0, IsHex(s)); Piece(Encode(Char(r.x)), r.i)
  }

  /** One decimal digit, and neither another nor a semicolon after it. */
  predicate LoneDigit(s: seq<Byte>)
    requires IsNumeric(s)
  {
    |s| > 2 && IsDigit(s[2]) && (|s| == 3 || (!IsDigit(s[3]) && s[3] != SEMI))
  }

  /** &#x; or &#X; */
  predicate NoHexDigits(s: seq<Byte>)
    requires IsNumeric(s)
  {
    IsHex(s) && |s| > 3 && s[3] == SEMI
  }

  /** A number past the last code point that int32 arithmetic turns into another. */
  predicate Overflows(s: seq<Byte>)
    requires IsNumeric(s)
  {
    var x := Digits(s, From(s), 0, IsHex(s)).x;
    x > 0x10FFFF && ValidRune(Wrap32(x)) && Wrap32(x) !in {0, 0xFFFD}
  }

  lemma WrapsTwice(x: int, d: int, hex: bool)
    ensures Shift(Wrap32(x), d, hex) == Wrap32((if hex then 16 else 10) * x + d)
  {
    var q := (x + 0x8000_0000) / 0x1_0000_0000;
    assert x == Wrap32(x) + 0x1_0000_0000 * q;
    if hex { SameWrap(16 * Wrap32(x) + d, 16 * q); } else { SameWrap(10 * Wrap32(x) + d, 10 * q); }
  }

  lemma SameWrap(y: int, k: int)
    ensures Wrap32(y + 0x1_0000_0000 * k) == Wrap32(y)
  {
  }

  /** The loop computes the value modulo 2^32, whatever it was before. */
  lemma {:induction false} NumberWraps(s: seq<Byte>, i: nat, x: nat, hex: bool)
    requires i <= |s|
    ensures Number(s, i, Wrap32(x), hex) == Scanned(Wrap32(Digits(s, i, x, hex).x), Digits(s, i, x, hex).i)
    decreases |s| - i
  {
    hide Wrap32, Shift;
    if i < |s| && Digit(s[i], hex).Some? {
      var d := Digit(s[i], hex).value;
      WrapsTwice(x, d, hex);
      NumberWraps(s, i + 1, (if hex then 16 else 10) * x + d, hex);
    }
  }

  lemma EncodeDiffers(a: int, b: int)
    requires ValidRune(a) && ValidRune(b) && a != b
    ensures Encode(a) != Encode(b)
  {
    hide Encode, Decode;
    DecodeEncode(a, []);
    DecodeEncode(b, []);
  }

  lemma CharIsValid(x: int)
    requires x >= 0
    ensures ValidRune(Char(x))
        && (Char(x) == 0xFFFD <==> x == 0 || x > 0x10FFFF || 0xD800 <= x <= 0xDFFF || x == 0xFFFD)
  {
  }

  /** A value out of range is written as U+FFFD: also a negative one. */
  lemma EncodeReplaced(x: int)
    ensures Encode(Replaced(x)) == if x < 0 then Encode(0xFFFD) else Encode(Char(x))
  {
  }

  lemma SmallIsWhole(x: nat)
    requires x <= 0x10FFFF
    ensures Wrap32(x) == x
  {
  }

  /** The character written for x is the standard's, or x overflowed. */
  lemma WrittenChar(x: nat)
    ensures Encode(Replaced(Wrap32(x))) == Encode(Char(x)) <==>
            !(x > 0x10FFFF && ValidRune(Wrap32(x)) && Wrap32(x) !in {0, 0xFFFD})
  {
    hide Encode, Replaced, Wrap32;
    var w := Wrap32(x);
    EncodeReplaced(w);
    if x <= 0x10FFFF {
      SmallIsWhole(x);
    } else if w >= 0 {
      CharIsValid(w);
      CharIsValid(x);
      if Char(w) != 0xFFFD { EncodeDiffers(Char(w), 0xFFFD); }
    }
  }

  lemma NoDigits(s: seq<Byte>, i: nat, hex: bool)
    requires i <= |s| && (i == |s| || Digit(s[i], hex).None?)
    ensures Digits(s, i, 0, hex) == Scanned(0, if i < |s| && s[i] == SEMI then i + 1 else i)
  {
  }

  lemma SomeDigits(s: seq<Byte>, i: nat, hex: bool)
    requires i < |s| && Digit(s[i], hex).Some?
    ensures Digits(s, i, 0, hex).i > i
    ensures Digits(s, i, 0, hex).i == i + 1 <==> i + 1 == |s| || (Digit(s[i + 1], hex).None? && s[i + 1] != SEMI)
  {
  }

  /** A numeric reference is decoded as the standard has it, except exactly in three cases. */
  lemma NumericIsStandard(s: seq<Byte>, t: Tables)
    requires IsNumeric(s)
    ensures Entity(s, t) == Standard(s) <==> !LoneDigit(s) && !NoHexDigits(s) && !Overflows(s)
  {
    hide Digits, Number, Encode, Replaced, Wrap32, Char, ValidRune;
    var hex, from := IsHex(s), From(s);
    var r := Digits(s, from, 0, hex);
    NumberWraps(s, from, 0, hex);
    SmallIsWhole(0);
    WrittenChar(r.x);
    if from == |s| || Digit(s[from], hex).None? { NoDigits(s, from, hex); } else { SomeDigits(s, from, hex); }
  }

  /** Where there is no digit, the code and the standard both leave # and x as they are. */
  lemma TextStays(s: seq<Byte>, t: Tables)
    requires IsNumeric(s)
    ensures Unescape(s[1..], t) == s[1..From(s)] + Unescape(s[From(s)..], t)
  {
    assert s[1..][..From(s) - 1] == s[1..From(s)] && s[1..][From(s) - 1..] == s[From(s)..];
    PlainPrefix(s[1..], From(s) - 1, t);
  }

  lemma LoneDigitExample(t: Tables)
    ensures var s := [AMP, HASH, 57, 32]; Entity(s, t) == Piece([AMP], 1) && Standard(s) == Piece([9], 3)
  {
    var s := [AMP, HASH, 57, 32];
    assert Number(s, 3, 9, false) == Scanned(9, 3) && Digits(s, 3, 9, false) == Scanned(9, 3);
  }

  lemma NoHexDigitsExample(t: Tables)
    ensures var s := [AMP, HASH, 120, SEMI]; Entity(s, t) == Piece(Encode(0xFFFD), 4) && Standard(s) == Piece([AMP], 1)
  {
    var s := [AMP, HASH, 120, SEMI];
    assert Number(s, 3, 0, true) == Scanned(0, 4);
  }

  /** The decimal number 4294967356 is 2^32 + 60, and is decoded as a less-than sign. */
  lemma OverflowExample(t: Tables)
    ensures var s := [AMP, HASH, 52, 50, 57, 52, 57, 54, 55, 51, 53, 54, SEMI];
            Entity(s, t) == Piece([60], 13) && Standard(s) == Piece(Encode(0xFFFD), 13)
  {
    var s := [AMP, HASH, 52, 50, 57, 52, 57, 54, 55, 51, 53, 54, SEMI];
    assert Digits(s, 12, 4294967356, false) == Scanned(4294967356, 13);
    assert Digits(s, 10, 42949673, false) == Digits(s, 11, 429496735, false) == Digits(s, 12, 4294967356, false);
    assert Digits(s, 8, 429496, false) == Digits(s, 9, 4294967, false) == Digits(s, 10, 42949673, false);
    assert Digits(s, 6, 4294, false) == Digits(s, 7, 42949, false) == Digits(s, 8, 429496, false);
    assert Digits(s, 4, 42, false) == Digits(s, 5, 429, false) == Digits(s, 6, 4294, false);
    assert Digits(s, 2, 0, false) == Digits(s, 3, 4, false) == Digits(s, 4, 42, false);
    NumberWraps(s, 2, 0, false);
    assert Wrap32(4294967356) == 60 && Wrap32(0) == 0;
  }

  // ----- named references

  predicate IsKey(t: Tables, name: seq<Byte>) { name in t.one || name in t.two }

  /** Letters and digits, and a semicolon at the end, except in some names of 2 to 6 bytes
      that stand for one character. */
  ghost predicate NamesOk(t: Tables) {
    forall k :: IsKey(t, k) ==> k != [] && AllAlnum(k[..|k| - 1]) && (k[|k| - 1] == SEMI || ShortKey(t, k))
  }

  /** An ampersand, alone or before anything but a number. */
  predicate IsNamed(s: seq<Byte>) { s != [] && s[0] == AMP && (|s| == 1 || s[1] != HASH) }

  predicate AllAlnum(s: seq<Byte>) { forall i :: 0 <= i < |s| ==> IsAlnum(s[i]) }

  predicate ShortKey(t: Tables, k: seq<Byte>) {
    k in t.one && 2 <= |k| <= LONGEST_WITHOUT_SEMICOLON && IsAlnum(k[|k| - 1])
  }

  /** The longest prefix of u, of j bytes at most, that is in the tables; 0 if none is. */
  function LongestKey(t: Tables, u: seq<Byte>, j: nat): (k: nat)
    requires j <= |u|
    ensures k <= j && (k > 0 ==> IsKey(t, u[..k])) && forall i :: k < i <= j ==> !IsKey(t, u[..i])
  {
    if j == 0 then 0 else if IsKey(t, u[..j]) then j else LongestKey(t, u, j - 1)
  }

  function Meaning(t: Tables, name: seq<Byte>): seq<Byte>
    requires IsKey(t, name)
  {
    if name in t.one then Encode(t.one[name]) else Encode(t.two[name].0) + Encode(t.two[name].1)
  }

  lemma {:induction false} NameEndIs(s: seq<Byte>, i: nat)
    requires i <= |s|
    ensures var r := NameEnd(s, i);
            && (forall k :: i <= k < r - 1 ==> IsAlnum(s[k]))
            && (r > i ==> IsAlnum(s[r - 1]) || s[r - 1] == SEMI)
            && (r < |s| ==> (r > i && s[r - 1] == SEMI) || (!IsAlnum(s[r]) && s[r] != SEMI))
    decreases |s| - i
  {
    if i < |s| && IsAlnum(s[i]) {
      NameEndIs(s, i + 1);
      assert !IsAlnum(SEMI);
    }
  }

  /** A name in the tables that begins the text is no longer than the one scanned, and if
      shorter it has no semicolon. */
  lemma KeyFits(s: seq<Byte>, t: Tables, j: nat)
    requires NamesOk(t) && 0 < j < |s| && IsKey(t, s[1..][..j])
    ensures j <= NameEnd(s, 1) - 1
    ensures j < NameEnd(s, 1) - 1 ==> ShortKey(t, s[1..][..j])
  {
    hide NameEnd, IsKey, ShortKey;
    var k, r := s[1..][..j], NameEnd(s, 1);
    NameEndIs(s, 1);
    assert k[j - 1] == s[j];
    forall i | 1 <= i < j ensures IsAlnum(s[i]) { assert k[..j - 1][i - 1] == s[i]; }
    assert !IsAlnum(SEMI);
    assert k[j - 1] == SEMI || IsAlnum(s[j]) by { if k[j - 1] != SEMI { assert ShortKey(t, k); ShortEnds(t, k); } }
  }

  lemma ShortEnds(t: Tables, k: seq<Byte>)
    requires ShortKey(t, k)
    ensures IsAlnum(k[|k| - 1])
  {
  }

  /** The code's search among six-byte prefixes finds what a search among all would. */
  lemma {:induction false} LongestAgree(s: seq<Byte>, t: Tables, name: seq<Byte>, j: nat)
    requires NamesOk(t) && |s| > 1 && name == s[1..NameEnd(s, 1)] && j < |name|
    ensures LongestKey(t, s[1..], j) == LongestPrefix(name, Min(j, LONGEST_WITHOUT_SEMICOLON), t.one)
  {
    hide NameEnd;
    if j > 0 {
      LongestAgree(s, t, name, j - 1);
      assert s[1..][..j] == name[..j];
      if IsKey(t, name[..j]) { KeyFits(s, t, j); }
    }
  }

  /** Nothing beyond the scanned name is in the tables. */
  lemma {:induction false} BeyondName(s: seq<Byte>, t: Tables, j: nat)
    requires NamesOk(t) && |s| > 1 && NameEnd(s, 1) - 1 <= j < |s|
    ensures LongestKey(t, s[1..], j) == LongestKey(t, s[1..], NameEnd(s, 1) - 1)
    decreases j
  {
    hide NameEnd;
    if j > NameEnd(s, 1) - 1 {
      BeyondName(s, t, j - 1);
      if IsKey(t, s[1..][..j]) { KeyFits(s, t, j); }
    }
  }

  /** The longest name is the scanned one, or what the code finds in its place. */
  lemma ScannedOrPrefix(s: seq<Byte>, t: Tables, name: seq<Byte>)
    requires NamesOk(t) && |s| > 1 && name == s[1..NameEnd(s, 1)]
    ensures LongestKey(t, s[1..], |s| - 1) ==
            if name == [] then 0
            else if IsKey(t, name) then |name|
            else LongestPrefix(name, Min(|name| - 1, LONGEST_WITHOUT_SEMICOLON), t.one)
  {
    hide NameEnd, NamesOk, IsKey;
    BeyondName(s, t, |s| - 1);
    assert s[1..][..|name|] == name;
    if name != [] && !IsKey(t, name) { LongestAgree(s, t, name, |name| - 1); }
  }

  lemma NoAmpersand(s: seq<Byte>)
    requires |s| > 1
    ensures AMP !in s[1..NameEnd(s, 1)]
  {
    NameEndIs(s, 1);
    forall j | 1 <= j < NameEnd(s, 1) ensures s[j] != AMP {}
  }

  /** A named reference stands for the longest name in the code's tables that the text begins
      with, whatever follows it, or for the text itself if there is none. */
  lemma NamedIsLongest(s: seq<Byte>, t: Tables)
    requires NamesOk(t) && IsNamed(s)
    ensures var k := LongestKey(t, s[1..], |s| - 1);
            if k > 0 then Entity(s, t) == Piece(Meaning(t, s[1..][..k]), k + 1)
            else exists n :: 0 < n <= |s| && Entity(s, t) == Piece(s[..n], n) && AMP !in s[1..n]
  {
    if |s| == 1 {
      assert Entity(s, t) == Piece(s[..1], 1);
    } else {
      LongerName(s, t);
    }
  }

  lemma LongerName(s: seq<Byte>, t: Tables)
    requires NamesOk(t) && IsNamed(s) && |s| > 1
    ensures var k := LongestKey(t, s[1..], |s| - 1);
            if k > 0 then Entity(s, t) == Piece(Meaning(t, s[1..][..k]), k + 1)
            else exists n :: 0 < n <= |s| && Entity(s, t) == Piece(s[..n], n) && AMP !in s[1..n]
  {
    hide NameEnd, Encode, NamesOk, LongestKey, LongestPrefix;
    var name := s[1..NameEnd(s, 1)];
    ScannedOrPrefix(s, t, name);
    NoAmpersand(s);
    var k := LongestKey(t, s[1..], |s| - 1);
    if k > 0 { assert s[1..][..k] == name[..k]; assert name[..|name|] == name; }
  }

  // ----- the tables of the code and those of the standard

  const N_LT: seq<Byte> := [110, 76, 116, 59]
  const N_GT: seq<Byte> := [110, 71, 116, 59]

  /** The code's tables are the standard's without the two names that stand for more bytes
      than they have. */
  ghost predicate LacksWide(std: Tables, t: Tables) {
    && NamesOk(std) && t.one == std.one && t.two == std.two - {N_LT, N_GT}
    && N_LT in std.two && N_LT !in std.one && std.two[N_LT] == (0x226A, 0x20D2)
    && N_GT in std.two && N_GT !in std.one && std.two[N_GT] == (0x226B, 0x20D2)
  }

  lemma KeysLacking(std: Tables, t: Tables, k: seq<Byte>)
    requires LacksWide(std, t)
    ensures IsKey(t, k) <==> IsKey(std, k) && k !in {N_LT, N_GT}
    ensures IsKey(t, k) ==> Meaning(t, k) == Meaning(std, k)
  {
  }

  lemma NamesLacking(std: Tables, t: Tables)
    requires LacksWide(std, t)
    ensures NamesOk(t)
  {
  }

  lemma WideMeaning(std: Tables, t: Tables, k: seq<Byte>)
    requires LacksWide(std, t) && k in {N_LT, N_GT}
    ensures IsKey(std, k) && |Meaning(std, k)| == 6 == |k| + 2
  {
    hide NamesOk;
  }

  /** Where the standard's name is one of the others, the code has the same. */
  lemma {:induction false} LongestLacking(std: Tables, t: Tables, u: seq<Byte>, j: nat)
    requires LacksWide(std, t) && j <= |u| && u[..LongestKey(std, u, j)] !in {N_LT, N_GT}
    ensures LongestKey(t, u, j) == LongestKey(std, u, j)
  {
    hide LacksWide, IsKey;
    if j > 0 {
      KeysLacking(std, t, u[..j]);
      if !IsKey(std, u[..j]) { LongestLacking(std, t, u, j - 1); }
    }
  }

  /** Given the standard's tables, a named reference is decoded as section 13.2.5.73 has it
      if and only if its name is not one of the two that the code lacks. */
  lemma NamedIsStandard(s: seq<Byte>, std: Tables, t: Tables)
    requires LacksWide(std, t) && TablesOk(t) && IsNamed(s)
    ensures var k := LongestKey(std, s[1..], |s| - 1);
            if k > 0 then Entity(s, t) == Piece(Meaning(std, s[1..][..k]), k + 1) <==> s[1..][..k] !in {N_LT, N_GT}
            else exists n :: 0 < n <= |s| && Entity(s, t) == Piece(s[..n], n) && AMP !in s[1..n]
  {
    hide LacksWide, Entity, TablesOk, Meaning, NamesOk, LongestKey;
    var u := s[1..];
    var k := LongestKey(std, u, |s| - 1);
    NamesLacking(std, t);
    if u[..k] in {N_LT, N_GT} {
      WideMeaning(std, t, u[..k]);
      EntityShrinks(s, t);
    } else {
      LongestLacking(std, t, u, |s| - 1);
      NamedIsLongest(s, t);
      KeysLacking(std, t, u[..k]);
    }
  }

  /** A much-greater-than sign with its stroke is left as it is written. */
  lemma WideExample(std: Tables, t: Tables)
    requires LacksWide(std, t) && [110, 71] !in std.one && [110, 71, 116] !in std.one
    ensures var s := [AMP] + N_GT;
            Entity(s, t) == Piece(s, 5) && LongestKey(std, N_GT, 4) == 4
                && Meaning(std, N_GT) == Encode(0x226B) + Encode(0x20D2)
  {
    var s := [AMP] + N_GT;
    assert s[1..] == N_GT && N_GT[..4] == N_GT && N_GT[..3] == [110, 71, 116] && N_GT[..2] == [110, 71];
    assert NameEnd(s, 4) == 5 && NameEnd(s, 2) == NameEnd(s, 4) && NameEnd(s, 1) == NameEnd(s, 2);
    assert s[1..5] == N_GT && s[..5] == s;
    KeysLacking(std, t, N_GT);
    assert LongestPrefix(N_GT, 3, t.one) == 0 by {
      assert LongestPrefix(N_GT, 1, t.one) == 0 && LongestPrefix(N_GT, 2, t.one) == 0;
    }
  }
}
