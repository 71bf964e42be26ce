/** What is a token, a media type and an attribute character, and what ParseMediaType does
    with headers that FormatMediaType does not write. */
module MediaTypeLaws {

  import opened Common
  import opened Grammar
  import opened MediaType
  import opened MediaTypeRoundTrip

  // ----- characters

  predicate IsAlnum(c: char) { '0' <= c <= '9' || 'A' <= c <= 'Z' || 'a' <= c <= 'z' }

  /** Section 5.1 of RFC 2045: a token has letters, digits and these. */
  lemma TokenChars(c: char)
    ensures IsTokenChar(c) <==> IsAlnum(c) || c in "!#$%&'*+-.^_`{|}~"
  {
  }

  /** Section 7 of RFC 2231: so has an attribute, without these three. */
  lemma AttributeChars(c: char)
    ensures !IsPercented(c) <==> IsTokenChar(c) && c !in "*'%"
  {
  }

  // ----- media types

  /** A type is a token, or two with a slash between them, and is accepted exactly then. */
  lemma TypesAre(t: Text)
    ensures TypeOk(t) <==> IsToken(t) || exists i :: 0 <= i < |t| && IsTokens(t, i)
    ensures TypeOk(t) <==> Checked(t)
  {
    hide IsTokenChar;
    var i := IndexFrom(t, '/', 0);
    SlashIsNoToken();
    if exists k :: 0 <= k < |t| && IsTokens(t, k) {
      var k :| 0 <= k < |t| && IsTokens(t, k);
      assert forall j :: 0 <= j < k ==> t[..k][j] == t[j];
      IndexIs(t, '/', 0, k);
    }
    if i < |t| && IsToken(t[..i]) && IsToken(t[i + 1..]) { assert IsTokens(t, i); }
    if IsToken(t) { assert i == |t|; }
    if TypeOk(t) { CheckedIfOk(t); }
    if Checked(t) { OkIfChecked(t); }
  }

  ghost predicate IsTokens(t: Text, i: nat)
    requires i < |t|
  {
    t[i] == '/' && IsToken(t[..i]) && IsToken(t[i + 1..])
  }

  lemma SlashIsNoToken()
    ensures !IsTokenChar('/')
  {
  }

  lemma CheckedIfOk(t: Text)
    requires TypeOk(t)
    ensures Checked(t)
  {
    hide IsTokenChar, Checked, AllToken;
    var i := IndexFrom(t, '/', 0);
    if i == |t| {
      OneTokenChecks(t);
    } else {
      TwoTokensCheck(t[..i], t[i + 1..]);
      assert t == t[..i] + ("/" + t[i + 1..]);
    }
  }

  lemma OkIfChecked(t: Text)
    requires Checked(t)
    ensures TypeOk(t)
  {
    hide IsTokenChar, TokenEnd, IndexFrom;
    SlashIsNoToken();
    var n := TokenEnd(t, 0);
    var u := t[n..];
    assert forall k :: 0 <= k < n ==> t[k] != '/';
    if u == "" {
      assert t[..n] == t;
      IndexIs(t, '/', 0, |t|);
    } else {
      IndexIs(t, '/', 0, n);
      var m := TokenEnd(u[1..], 0);
      assert u[1..] == t[n + 1..] && u[1..][..m] == u[1..];
    }
  }

  // ----- white space between the parts of a parameter

  predicate Spaces(s: Text) { forall i :: 0 <= i < |s| ==> IsAsciiSpace(s[i]) }

  predicate Visible(c: char) { '!' <= c <= '~' }

  lemma OneMoreSpace(lib: Lib, v: Text)
    requires SpacesOk(lib) && v != ""
    ensures IsAsciiSpace(v[0]) ==> lib.spaces(v) == 1 + lib.spaces(v[1..])
    ensures Visible(v[0]) ==> lib.spaces(v) == 0
    ensures lib.spaces("") == 0
  {
  }

  lemma {:induction false} SkipSpaces(lib: Lib, s: Text, t: Text)
    requires SpacesOk(lib) && Spaces(s) && (t == "" || Visible(t[0]))
    ensures lib.spaces(s + t) == |s| && TrimLeft(lib, s + t) == t
  {
    hide SpacesOk;
    var v := s + t;
    if s == "" {
      assert v == t;
      OneMoreSpace(lib, if t == "" then ";" else t);
    } else {
      assert v[1..] == s[1..] + t && v[0] == s[0];
      OneMoreSpace(lib, v);
      SkipSpaces(lib, s[1..], t);
    }
    assert v[|s|..] == t;
  }

  lemma NameEnds(tok: Text, rest: Text)
    requires IsToken(tok) && (rest == "" || !IsTokenChar(rest[0]))
    ensures ConsumeToken(tok + rest) == Taken(tok, rest)
  {
    TokenValue(tok, rest);
  }

  lemma FirstOf(a: Text, b: Text)
    requires a != ""
    ensures a + b != "" && (a + b)[0] == a[0]
  {
  }

  lemma SpaceIsNoToken(s: Text, t: Text)
    requires Spaces(s) && t != "" && t[0] == '='
    ensures s + t != "" && !IsTokenChar((s + t)[0])
  {
    if s != "" { assert (s + t)[0] == s[0]; } else { assert s + t == t; }
  }

  lemma TokenIsVisible(name: Text)
    requires IsToken(name)
    ensures Visible(name[0])
  {
  }

  /** White space may stand before and after the semicolon, the name and the equals sign. */
  lemma SpacesDoNotMatter(lib: Lib, s0: Text, s1: Text, name: Text, s2: Text, s3: Text, w: Text,
                          value: Text, rest: Text)
    requires LibOk(lib) && Spaces(s0) && Spaces(s1) && Spaces(s2) && Spaces(s3)
    requires IsToken(name) && w != "" && Visible(w[0]) && ConsumeValue(w) == Taken(value, rest) && |rest| < |w|
    ensures ConsumeMediaParam(lib, s0 + (";" + (s1 + (name + (s2 + ("=" + (s3 + w))))))) ==
            MediaParam(LowerAscii(name), value, rest)
  {
    hide LibOk, TrimLeft, ConsumeToken, ConsumeValue, LowerAscii, IsTokenChar, AllToken, Spaces;
    hide SpacesOk, LowerOk, TrimOk;
    assert LowerOk(lib) && SpacesOk(lib) by { LibParts(lib); }
    var v4 := s3 + w;
    var v3 := s2 + ("=" + v4);
    var v2 := name + v3;
    var v1 := s1 + v2;
    SkipSpaces(lib, s0, ";" + v1);
    assert (";" + v1)[1..] == v1;
    FirstOf(name, v3);
    TokenIsVisible(name);
    SkipSpaces(lib, s1, v2);
    SpaceIsNoToken(s2, "=" + v4);
    NameEnds(name, v3);
    LowerToken(lib, name);
    SkipSpaces(lib, s2, "=" + v4);
    assert ("=" + v4)[1..] == v4;
    SkipSpaces(lib, s3, w);
  }

  lemma LibParts(lib: Lib)
    requires LibOk(lib)
    ensures LowerOk(lib) && SpacesOk(lib) && TrimOk(lib)
  {
  }

  // ----- quoted strings from elsewhere

  predicate LiteralAt(s: Text, i: nat)
    requires i < |s|
  {
    && s[i] != '"' && s[i] != '\r' && s[i] != '\n'
    && (s[i] == '\\' ==> i + 1 < |s| && !IsTSpecial(s[i + 1]))
  }

  /** No quote and no line break, and no backslash before a special character or at the end. */
  predicate Literal(s: Text) { forall i :: 0 <= i < |s| ==> LiteralAt(s, i) }

  lemma LiteralRest(s: Text)
    requires Literal(s) && s != ""
    ensures LiteralAt(s, 0) && Literal(s[1..])
  {
    hide IsTSpecial;
    forall i | 0 <= i < |s| - 1 ensures LiteralAt(s[1..], i) { assert LiteralAt(s, i + 1); }
  }

  lemma {:induction false} LiteralFrom(pre: Text, s: Text, rest: Text, acc: Text)
    requires Literal(s)
    ensures Quoted(pre + (s + ("\"" + rest)), |pre|, acc) == Some(Taken(acc + s, rest))
    decreases |s|
  {
    hide Literal, IsTSpecial;
    var v := pre + (s + ("\"" + rest));
    if s == "" {
      assert acc + s == acc && v == pre + ("\"" + rest);
      QuotedEnd(pre, rest, acc);
    } else {
      LiteralRest(s);
      assert v[|pre|] == s[0];
      if s[0] == '\\' { assert v[|pre| + 1] == s[1]; }
      assert v == (pre + [s[0]]) + (s[1..] + ("\"" + rest));
      LiteralFrom(pre + [s[0]], s[1..], rest, acc + [s[0]]);
      assert (acc + [s[0]]) + s[1..] == acc + s;
    }
  }

  /** A backslash before a character that needs none is kept: such file names come from
      some browsers. */
  lemma LiteralBackslash(s: Text, rest: Text)
    requires Literal(s)
    ensures ConsumeValue(("\"" + s + "\"") + rest) == Taken(s, rest)
  {
    hide Literal;
    LiteralFrom("\"", s, rest, "");
    assert ("\"" + s + "\"") + rest == "\"" + (s + ("\"" + rest));
    assert "" + s == s;
  }

  /** A quoted string that is not ended, or broken by a line end, is no value. */
  lemma {:induction false} Unended(v: Text, i: nat, acc: Text)
    requires 0 < i <= |v| && forall k :: i <= k < |v| ==> v[k] != '"'
    ensures Quoted(v, i, acc).None?
    decreases |v| - i
  {
    if i < |v| {
      if v[i] == '\\' && i + 1 < |v| && IsTSpecial(v[i + 1]) { Unended(v, i + 2, acc + [v[i + 1]]); }
      else if v[i] != '\r' && v[i] != '\n' { Unended(v, i + 1, acc + [v[i]]); }
    }
  }

  // ----- character sets

  /** An extended value is decoded whatever its language, for the two character sets in any
      letter case, and for no other. */
  lemma ExtendedCharsets(lib: Lib, charset: Text, language: Text, s: Text)
    requires LibOk(lib) && IsAscii(charset) && '\'' !in charset && '\'' !in language && IsBytes(s)
    ensures Decode2231(lib, charset + ("'" + (language + ("'" + Percent(s))))) ==
            if LowerAscii(charset) == "utf-8" || LowerAscii(charset) == "us-ascii" then Some(s) else None
  {
    hide PercentUnescape, IndexFrom, Percent, IsBytes, SpacesOk, TrimOk, LowerAscii;
    var p := Percent(s);
    var v := charset + ("'" + (language + ("'" + p)));
    var i, j := |charset|, |charset| + 1 + |language|;
    assert v[..i] == charset && v[j + 1..] == p;
    assert forall k :: 0 <= k < i ==> v[k] == charset[k];
    assert forall k :: i < k < j ==> v[k] == language[k - i - 1];
    IndexIs(v, '\'', 0, i);
    IndexIs(v, '\'', i + 1, j);
    PercentRoundTrip(s);
  }

  // ----- percent-encoding

  /** What stands for one byte of a percent-encoded text. */
  datatype Unit = Itself(c: char) | Escape(a: char, b: char)

  predicate UnitOk(u: Unit) { if u.Itself? then u.c != '%' else IsHex(u.a) && IsHex(u.b) }

  function UnitText(u: Unit): Text { if u.Itself? then [u.c] else ['%', u.a, u.b] }

  function UnitByte(u: Unit): char { if u.Itself? then u.c else FromHex(u.a, u.b) }

  function UnitsText(units: seq<Unit>): Text {
    if units == [] then "" else UnitText(units[0]) + UnitsText(units[1..])
  }

  function UnitsBytes(units: seq<Unit>): Text {
    if units == [] then "" else [UnitByte(units[0])] + UnitsBytes(units[1..])
  }

  /** A percent sign without two digits after it. */
  predicate BadAt(t: Text) { t != "" && t[0] == '%' && (|t| < 3 || !IsHex(t[1]) || !IsHex(t[2])) }

  /** Every text is a list of units, or such a list and then a bad escape: percentHexUnescape
      fails exactly on the latter. */
  lemma {:induction false} PercentSplits(t: Text) returns (units: seq<Unit>, bad: Text)
    ensures (forall i :: 0 <= i < |units| ==> UnitOk(units[i])) && t == UnitsText(units) + bad
    ensures bad == "" || BadAt(bad)
    ensures PercentUnescape(t) == if bad == "" then Some(UnitsBytes(units)) else None
    decreases |t|
  {
    hide IsHex, FromHex;
    if t == "" || BadAt(t) {
      units, bad := [], t;
      assert t == "" + t;
    } else {
      var u := if t[0] == '%' then Escape(t[1], t[2]) else Itself(t[0]);
      var n := |UnitText(u)|;
      assert t == UnitText(u) + t[n..];
      var more;
      more, bad := PercentSplits(t[n..]);
      units := [u] + more;
      assert units[1..] == more;
      Cat(UnitText(u), UnitsText(more), bad);
    }
  }
}
