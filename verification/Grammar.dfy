/** mime/grammar.go and the parts of strings that the mime package leans on.  A Text is
    a byte string: its characters are bytes. */
module Grammar {

  import opened Common

  type Text = string

  predicate IsBytes(s: Text) { forall i :: 0 <= i < |s| ==> s[i] as int < 256 }

  /** The special characters of section 5.1 of RFC 2045. */
  predicate IsTSpecial(c: char) { c in "()<>@,;:\\\"/[]?=" }

  predicate IsTokenChar(c: char) { '!' <= c <= '~' && !IsTSpecial(c) }

  predicate AllToken(s: Text) { forall i :: 0 <= i < |s| ==> IsTokenChar(s[i]) }

  predicate IsToken(s: Text) { s != "" && AllToken(s) }

  predicate IsAscii(s: Text) { forall i :: 0 <= i < |s| ==> s[i] as int < 128 }

  function LowerChar(c: char): char { if 'A' <= c <= 'Z' then c + ' ' else c }

  function LowerAscii(s: Text): (r: Text)
    ensures |r| == |s| && forall i :: 0 <= i < |s| ==> r[i] == LowerChar(s[i])
  {
    seq(|s|, i requires 0 <= i < |s| => LowerChar(s[i]))
  }

  predicate IsLower(s: Text) { forall i :: 0 <= i < |s| ==> !('A' <= s[i] <= 'Z') }

  /** The first c at i or later, |s| if there is none. */
  function IndexFrom(s: Text, c: char, i: nat): (r: nat)
    requires i <= |s|
    ensures i <= r <= |s| && (r < |s| ==> s[r] == c) && forall k :: i <= k < r ==> s[k] != c
    decreases |s| - i
  {
    if i == |s| || s[i] == c then i else IndexFrom(s, c, i + 1)
  }

  lemma IndexIs(s: Text, c: char, i: nat, k: nat)
    requires i <= k <= |s| && (k < |s| ==> s[k] == c) && forall j :: i <= j < k ==> s[j] != c
    ensures IndexFrom(s, c, i) == k
  {
  }

  function IsHex(c: char): bool { '0' <= c <= '9' || 'a' <= c <= 'f' || 'A' <= c <= 'F' }

  function Unhex(c: char): (v: nat)
    ensures v < 16
  {
    if '0' <= c <= '9' then c as int - '0' as int
    else if 'a' <= c <= 'f' then c as int - 'a' as int + 10
    else if 'A' <= c <= 'F' then c as int - 'A' as int + 10
    else 0
  }

  function UpperHex(n: nat): (c: char)
    requires n < 16
    ensures IsHex(c) && Unhex(c) == n && !('a' <= c <= 'z')
  {
    if n < 10 then ('0' as int + n) as char else ('A' as int + n - 10) as char
  }

  /** A byte from its two hexadecimal digits. */
  function FromHex(a: char, b: char): (c: char)
    ensures c as int < 256
  {
    (16 * Unhex(a) + Unhex(b)) as char
  }

  function High(c: char): char { UpperHex(c as int / 16 % 16) }

  function Low(c: char): char { UpperHex(c as int % 16) }

  lemma HexRoundTrip(c: char)
    requires c as int < 256
    ensures FromHex(High(c), Low(c)) == c
  {
  }

  /** Outside printable ASCII and the tab. */
  predicate NeedsEncoding(s: Text) { exists i :: 0 <= i < |s| && (s[i] < ' ' || s[i] > '~') && s[i] != '\t' }

  // ----- texts built character by character

  function Each(f: char -> Text, s: Text): Text {
    if s == "" then "" else Each(f, s[..|s| - 1]) + f(s[|s| - 1])
  }

  lemma {:induction false} EachConcat(f: char -> Text, a: Text, b: Text)
    ensures Each(f, a + b) == Each(f, a) + Each(f, b)
    decreases |b|
  {
    if b == "" {
      assert a + b == a && Each(f, b) == "";
    } else {
      var b', c := b[..|b| - 1], b[|b| - 1];
      assert (a + b)[..|a + b| - 1] == a + b' && (a + b)[|a + b| - 1] == c;
      EachConcat(f, a, b');
      Cat(Each(f, a), Each(f, b'), f(c));
    }
  }

  lemma EachCons(f: char -> Text, s: Text)
    requires s != ""
    ensures Each(f, s) == f(s[0]) + Each(f, s[1..])
  {
    assert [s[0]] + s[1..] == s;
    EachConcat(f, [s[0]], s[1..]);
    assert Each(f, [s[0]]) == Each(f, []) + f(s[0]);
  }
}
