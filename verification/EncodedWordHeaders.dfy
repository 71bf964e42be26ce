/** DecodeHeader on headers that mix text and encoded-words (sections 5 and 6.2 of RFC
    2047), and which Q texts can be decoded to what (section 4.2). */
module EncodedWordHeaders {

  import opened Common
  import opened Grammar
  import opened EncodedWord
  import opened EncodedWordRoundTrip

  // ----- Q texts

  /** What stands for one byte in a Q text. */
  datatype Unit = Space | Plain(c: char) | Hex(a: char, b: char)

  predicate UnitOk(u: Unit) {
    match u
    case Space => true
    case Plain(c) => (' ' <= c <= '~' || c == '\n' || c == '\r' || c == '\t') && c != '=' && c != '_'
    case Hex(a, b) => a in HEX_DIGITS && b in HEX_DIGITS
  }

  const HEX_DIGITS: Text := "0123456789ABCDEFabcdef"

  function UnitText(u: Unit): Text {
    match u
    case Space => "_"
    case Plain(c) => [c]
    case Hex(a, b) => ['=', a, b]
  }

  /** The value of a hexadecimal digit, by its place among the digits. */
  function DigitValue(c: char): (v: nat)
    requires c in HEX_DIGITS
    ensures v < 16
  {
    var i := IndexFrom(HEX_DIGITS, c, 0);
    if i < 16 then i else i - 6
  }

  function UnitByte(u: Unit): char
    requires UnitOk(u)
  {
    match u
    case Space => ' '
    case Plain(c) => c
    case Hex(a, b) => (16 * DigitValue(a) + DigitValue(b)) as char
  }

  function UnitsText(units: seq<Unit>): Text {
    if units == [] then "" else UnitText(units[0]) + UnitsText(units[1..])
  }

  function UnitsBytes(units: seq<Unit>): Text
    requires forall i :: 0 <= i < |units| ==> UnitOk(units[i])
  {
    if units == [] then "" else [UnitByte(units[0])] + UnitsBytes(units[1..])
  }

  function DigitPlace(c: char): int {
    if '0' <= c <= '9' then c as int - '0' as int
    else if 'A' <= c <= 'F' then c as int - 'A' as int + 10
    else if 'a' <= c <= 'f' then c as int - 'a' as int + 16
    else -1
  }

  lemma DigitPlaces()
    ensures forall i :: 0 <= i < 22 ==> DigitPlace(HEX_DIGITS[i]) == i
  {
  }

  lemma DigitIsThere(c: char)
    requires IsHex(c)
    ensures 0 <= DigitPlace(c) < 22 && HEX_DIGITS[DigitPlace(c)] == c
  {
  }

  lemma HexDigit(c: char)
    ensures IsHex(c) <==> c in HEX_DIGITS
    ensures c in HEX_DIGITS ==> Unhex(c) == DigitValue(c)
  {
    DigitPlaces();
    if IsHex(c) { DigitIsThere(c); }
    hide HEX_DIGITS;
    if c in HEX_DIGITS {
      var i :| 0 <= i < |HEX_DIGITS| && HEX_DIGITS[i] == c;
      FirstPlace(c, i);
    }
  }

  lemma FirstPlace(c: char, i: nat)
    requires i < |HEX_DIGITS| && HEX_DIGITS[i] == c
    ensures |HEX_DIGITS| == 22 && IndexFrom(HEX_DIGITS, c, 0) == i == DigitPlace(c)
  {
    DigitPlaces();
    hide HEX_DIGITS, DigitPlace;
    assert |HEX_DIGITS| == 22 by { HexCount(); }
    forall j | 0 <= j < i ensures HEX_DIGITS[j] != c { assert DigitPlace(HEX_DIGITS[j]) == j; }
    IndexIs(HEX_DIGITS, c, 0, i);
  }

  lemma HexCount()
    ensures |HEX_DIGITS| == 22
  {
  }

  lemma OneUnit(u: Unit, t: Text)
    requires UnitOk(u)
    ensures QDecode(UnitText(u) + t) == Then([UnitByte(u)], QDecode(t))
  {
    hide DigitValue, Unhex, IsHex, HEX_DIGITS;
    var q := UnitText(u);
    assert (q + t)[|q|..] == t;
    if u.Hex? {
      HexDigit(u.a);
      HexDigit(u.b);
      assert q + t == ['=', u.a, u.b] + t;
    }
  }

  /** Every list of units is decoded to its bytes, whatever the case of its digits. */
  lemma {:induction false} QTextDecodes(units: seq<Unit>, t: Text)
    requires forall i :: 0 <= i < |units| ==> UnitOk(units[i])
    ensures QDecode(UnitsText(units) + t) == Then(UnitsBytes(units), QDecode(t))
  {
    hide QDecode, UnitOk, UnitByte, UnitText;
    if units == [] {
      assert "" + t == t;
      ThenNothing(QDecode(t));
    } else {
      var u, more := units[0], units[1..];
      Cat(UnitText(u), UnitsText(more), t);
      OneUnit(u, UnitsText(more) + t);
      QTextDecodes(more, t);
      ThenMore([UnitByte(u)], UnitsBytes(more), QDecode(t));
    }
  }

  /** What no unit begins with: another byte, or = without two digits after it. */
  predicate BadAt(t: Text) {
    t != "" && if t[0] == '=' then |t| < 3 || t[1] !in HEX_DIGITS || t[2] !in HEX_DIGITS
               else t[0] > '~' || (t[0] < ' ' && t[0] !in "\n\r\t")
  }

  lemma BadFails(t: Text)
    requires BadAt(t)
    ensures QDecode(t).None?
  {
    hide HEX_DIGITS, IsHex;
    if t[0] == '=' && |t| >= 3 {
      HexDigit(t[1]);
      HexDigit(t[2]);
    }
  }

  /** Every text is a list of units, or such a list and then something bad: qDecode fails
      exactly on the latter. */
  lemma {:induction false} QTextSplits(t: Text) returns (units: seq<Unit>, bad: Text)
    ensures (forall i :: 0 <= i < |units| ==> UnitOk(units[i])) && t == UnitsText(units) + bad
    ensures bad == "" || BadAt(bad)
    ensures QDecode(t) == if bad == "" then Some(UnitsBytes(units)) else None
    decreases |t|
  {
    if t == "" || BadAt(t) {
      units, bad := [], t;
      assert t == "" + t;
      if t != "" { BadFails(t); }
    } else {
      var u := if t[0] == '=' then Hex(t[1], t[2]) else if t[0] == '_' then Space else Plain(t[0]);
      var n := |UnitText(u)|;
      assert t == UnitText(u) + t[n..];
      var more;
      more, bad := QTextSplits(t[n..]);
      units := [u] + more;
      assert units[1..] == more;
      Cat(UnitText(u), UnitsText(more), bad);
      QTextDecodes(units, bad);
      SplitIs(units, bad);
    }
  }

  lemma SplitIs(units: seq<Unit>, bad: Text)
    requires (forall i :: 0 <= i < |units| ==> UnitOk(units[i])) && (bad == "" || BadAt(bad))
    ensures QDecode(UnitsText(units) + bad) == if bad == "" then Some(UnitsBytes(units)) else None
  {
    hide QDecode, BadAt, UnitOk;
    QTextDecodes(units, bad);
    if bad == "" {
      QDecodeNone();
      assert UnitsBytes(units) + "" == UnitsBytes(units);
    } else {
      BadFails(bad);
    }
  }

  // ----- mixed headers

  /** No encoded-word begins in t. */
  predicate NoStart(t: Text) { forall k :: 0 <= k && k + 1 < |t| ==> !(t[k] == '=' && t[k + 1] == '?') }

  predicate Blank(t: Text) { forall k :: 0 <= k < |t| ==> t[k] in " \t\n\r" }

  /** Something shaped like an encoded-word: in UTF-8 and of Q text that stands for content,
      or, for content None, of an unknown encoding or malformed. */
  datatype Shape = Shape(charset: Text, encoding: char, q: Text, content: Option<Text>)

  predicate ShapeOk(w: Shape) {
    && '?' !in w.charset && '?' !in w.q
    && (w.content.Some? ==> IsUTF8(w.charset) && w.encoding in "qQ" && QDecode(w.q) == w.content)
    && (w.content.None? ==> w.encoding !in "qQbB" || (w.encoding in "qQ" && QDecode(w.q).None?))
  }

  function Inner(w: Shape): Text { (w.charset + ("?" + [w.encoding] + "?")) + (w.q + "?=") }

  function ShapeText(w: Shape): Text { "=?" + Inner(w) }

  /** A text, and shapes each followed by a text. */
  function Mixed(lead: Text, shapes: seq<Shape>, texts: seq<Text>): Text
    requires |texts| == |shapes|
    decreases |shapes|
  {
    if shapes == [] then lead else lead + (ShapeText(shapes[0]) + Mixed(texts[0], shapes[1..], texts[1..]))
  }

  predicate MixedOk(lead: Text, shapes: seq<Shape>, texts: seq<Text>) {
    && |texts| == |shapes| && NoStart(lead)
    && (forall k :: 0 <= k < |shapes| ==> ShapeOk(shapes[k]) && TextOk(shapes[k], texts[k]))
  }

  /** After a malformed word, the text must not complete another beginning. */
  predicate TextOk(w: Shape, t: Text) { NoStart(t) && (w.content.None? ==> NoStart(Inner(w) + t)) }

  /** What the header means: the texts and the decoded words in order, without the texts of
      white space between two decoded words; what is malformed stays. */
  function Meaning(lead: Text, afterWord: bool, shapes: seq<Shape>, texts: seq<Text>): Text
    requires |texts| == |shapes|
    decreases |shapes|
  {
    if shapes == [] then lead
    else
      var w := shapes[0];
      (if afterWord && w.content.Some? && Blank(lead) then "" else lead) +
      ((if w.content.Some? then w.content.value else ShapeText(w)) +
       Meaning(texts[0], w.content.Some?, shapes[1..], texts[1..]))
  }

  /** Where the parts of a shape lie behind a text. */
  lemma FindShape(t: Text, w: Shape, rest: Text)
    requires NoStart(t) && ShapeOk(w)
    ensures var h := t + (ShapeText(w) + rest);
            && Find(h) == Some(Found(|t|, w.charset, w.encoding, w.q, |t| + |ShapeText(w)|))
            && h[..|t|] == t && h[|t| + |ShapeText(w)|..] == rest
            && h[..|t| + 2] == t + "=?" && h[|t| + 2..] == Inner(w) + rest
  {
    hide QDecode, IsUTF8, Find;
    var h := t + (ShapeText(w) + rest);
    var n := |t|;
    var i := n + 2 + |w.charset|;
    var j := i + 3 + |w.q|;
    Places(t, w, rest);
    NotIn(h, n + 2, i, '?');
    NotIn(h, i + 3, j, '?');
    assert forall k :: 0 <= k < n ==> h[k] == t[k];
    FindBehind(h, n, i, j);
  }

  lemma Middle(u: Text, c: nat, e: char)
    requires c + 3 <= |u| && u[c..c + 3] == "?" + [e] + "?"
    ensures u[c] == '?' && u[c + 1] == e && u[c + 2] == '?'
  {
    assert u[c] == u[c..c + 3][0] && u[c + 1] == u[c..c + 3][1] && u[c + 2] == u[c..c + 3][2];
  }

  lemma InnerPlaces(w: Shape, rest: Text)
    ensures var u := Inner(w) + rest;
            var c := |w.charset|;
            var d := c + 3 + |w.q|;
            && |u| == d + 2 + |rest| && |Inner(w)| == d + 2 && u[..c] == w.charset && u[c] == '?'
            && u[c + 1] == w.encoding && u[c + 2] == '?' && u[c + 3..d] == w.q && u[d] == '?' && u[d + 1] == '='
            && u[d + 2..] == rest
  {
    var mid := "?" + [w.encoding] + "?";
    var tail := (w.q + "?=") + rest;
    var u := (w.charset + mid) + tail;
    Cat(w.charset + mid, w.q + "?=", rest);
    Three(w.charset, mid, tail);
    Three(w.q, "?=", rest);
    var c := |w.charset|;
    Middle(u, c, w.encoding);
    SubSlice(u, c + 3, 0, |w.q|);
    SubSlice(u, c + 3, |w.q| + 2, |tail|);
    assert tail == u[c + 3..];
  }

  lemma Behind(t: Text, u: Text)
    ensures var h := (t + "=?") + u;
            && |h| == |t| + 2 + |u| && h[..|t|] == t && h[|t|] == '=' && h[|t| + 1] == '?'
            && h[..|t| + 2] == t + "=?" && h[|t| + 2..] == u
  {
  }

  lemma Places(t: Text, w: Shape, rest: Text)
    ensures var h := t + (ShapeText(w) + rest);
            var n := |t|;
            var i := n + 2 + |w.charset|;
            var j := i + 3 + |w.q|;
            && j + 1 < |h| && h[..n] == t && h[n] == '=' && h[n + 1] == '?' && h[n + 2..i] == w.charset
            && h[i] == '?' && h[i + 1] == w.encoding && h[i + 2] == '?' && h[i + 3..j] == w.q
            && h[j] == '?' && h[j + 1] == '=' && h[j + 2..] == rest && j + 2 == n + |ShapeText(w)|
            && h[..n + 2] == t + "=?" && h[n + 2..] == Inner(w) + rest
  {
    var u := Inner(w) + rest;
    var h := (t + "=?") + u;
    InnerPlaces(w, rest);
    hide Inner;
    Malformed(t, w, rest);
    Behind(t, u);
    var c := |w.charset|;
    assert forall k :: 0 <= k < |u| ==> h[|t| + 2..][k] == u[k];
    SubSlice(h, |t| + 2, 0, c);
    SubSlice(h, |t| + 2, c + 3, c + 3 + |w.q|);
    SubSlice(h, |t| + 2, c + 5 + |w.q|, |u|);
  }

  lemma FindBehind(h: Text, n: nat, i: nat, j: nat)
    requires n + 2 <= i && i + 3 <= j && j + 1 < |h|
    requires h[n] == '=' && h[n + 1] == '?' && forall k :: 0 <= k < n ==> !(h[k] == '=' && h[k + 1] == '?')
    requires (forall k :: n + 2 <= k < i ==> h[k] != '?') && h[i] == '?' && h[i + 2] == '?'
    requires (forall k :: i + 3 <= k < j ==> h[k] != '?') && h[j] == '?' && h[j + 1] == '='
    ensures Find(h) == Some(Found(n, h[n + 2..i], h[i + 1], h[i + 3..j], j + 2))
  {
    hide Index2, IndexFrom;
    Index2Is(h, '=', '?', 0, n);
    IndexIs(h, '?', n + 2, i);
    Index2Is(h, '?', '=', i + 3, j);
  }

  lemma NothingFound(t: Text)
    requires NoStart(t)
    ensures Index2(t, '=', '?', 0) == |t| && Find(t).None?
  {
  }

  lemma ScanShape(lib: Lib, t: Text, afterWord: bool, w: Shape, rest: Text)
    requires NoStart(t) && ShapeOk(w)
    ensures var h := t + (ShapeText(w) + rest);
            Scan(lib, h, afterWord) ==
            if w.content.Some? then
              Then((if afterWord && Blank(t) then "" else t) + w.content.value, Scan(lib, rest, true))
            else Then(t + "=?", Scan(lib, Inner(w) + rest, false))
  {
    hide Find, IsUTF8, QDecode, ShapeText, Inner, NoStart;
    FindShape(t, w, rest);
    assert HasNonWhitespace(t) <==> !Blank(t);
    if w.content.Some? {
      ConvertUTF8(lib, w.charset, w.content.value);
      assert Decode(lib, w.encoding, w.q) == w.content;
    } else {
      assert Decode(lib, w.encoding, w.q).None?;
    }
  }

  lemma KeptLead(a: Text, b: Text, shapes: seq<Shape>, texts: seq<Text>)
    requires |texts| == |shapes|
    ensures Mixed(a + b, shapes, texts) == a + Mixed(b, shapes, texts)
    ensures Meaning(a + b, false, shapes, texts) == a + Meaning(b, false, shapes, texts)
  {
    hide ShapeText;
    if shapes != [] {
      Cat(a, b, ShapeText(shapes[0]) + Mixed(texts[0], shapes[1..], texts[1..]));
      var w := shapes[0];
      Cat(a, b, (if w.content.Some? then w.content.value else ShapeText(w)) +
                Meaning(texts[0], w.content.Some?, shapes[1..], texts[1..]));
    }
  }

  lemma {:induction false} ScanMixed(lib: Lib, lead: Text, afterWord: bool, shapes: seq<Shape>, texts: seq<Text>)
    requires MixedOk(lead, shapes, texts)
    ensures Scan(lib, Mixed(lead, shapes, texts), afterWord) == Some(Meaning(lead, afterWord, shapes, texts))
    decreases |shapes|
  {
    hide NoStart, ShapeOk, ShapeText, Inner, Blank;
    if shapes == [] {
      NothingFound(lead);
    } else {
      hide Scan;
      var w, more, after := shapes[0], shapes[1..], texts[1..];
      assert ShapeOk(w) && TextOk(w, texts[0]);
      ScanShape(lib, lead, afterWord, w, Mixed(texts[0], more, after));
      if w.content.Some? {
        ScanMixed(lib, texts[0], true, more, after);
        Cat(if afterWord && Blank(lead) then "" else lead, w.content.value, Meaning(texts[0], true, more, after));
      } else {
        KeptLead(Inner(w), texts[0], more, after);
        ScanMixed(lib, Inner(w) + texts[0], false, more, after);
        Malformed(lead, w, Meaning(texts[0], false, more, after));
      }
    }
  }

  lemma Malformed(lead: Text, w: Shape, rest: Text)
    ensures (lead + "=?") + (Inner(w) + rest) == lead + (ShapeText(w) + rest)
  {
    hide Inner;
    assert ShapeText(w) + rest == "=?" + (Inner(w) + rest);
  }

  /** DecodeHeader of any mixture of texts, encoded-words and malformed ones. */
  lemma MixedHeader(lib: Lib, lead: Text, shapes: seq<Shape>, texts: seq<Text>)
    requires MixedOk(lead, shapes, texts)
    ensures DecodeHeader(lib, Mixed(lead, shapes, texts)) == Some(Meaning(lead, false, shapes, texts))
  {
    hide NoStart, ShapeOk, ShapeText, Inner, Blank, Scan, Find;
    var h := Mixed(lead, shapes, texts);
    if shapes == [] {
      NothingFound(lead);
    } else {
      assert ShapeOk(shapes[0]);
      StartsBehind(lead, shapes[0], Mixed(texts[0], shapes[1..], texts[1..]));
      NoStartEmpty();
      KeptLead(lead, "", shapes, texts);
      assert lead + "" == lead;
      assert h[..|lead|] == lead && h[|lead|..] == Mixed("", shapes, texts);
      ScanMixed(lib, "", false, shapes, texts);
    }
  }

  lemma NoStartEmpty()
    ensures NoStart("")
  {
  }

  lemma StartsBehind(t: Text, w: Shape, rest: Text)
    requires NoStart(t) && ShapeOk(w)
    ensures var h := t + (ShapeText(w) + rest); Index2(h, '=', '?', 0) == |t| < |h|
  {
    hide ShapeOk, Index2;
    Places(t, w, rest);
    var h := t + (ShapeText(w) + rest);
    assert forall k :: 0 <= k < |t| ==> h[k] == t[k];
    Index2Is(h, '=', '?', 0, |t|);
  }

  /** A header with no encoded-word comes back unchanged. */
  lemma PlainHeader(lib: Lib, header: Text)
    requires NoStart(header)
    ensures DecodeHeader(lib, header) == Some(header)
  {
    NothingFound(header);
  }

  /** What may follow a beginning that no encoded-word comes of: no second question mark,
      fewer than four characters after it, no question mark after the encoding, or no end. */
  predicate NeverEnds(charset: Text, more: Text) {
    && '?' !in charset
    && (more == "" ||
        (more[0] == '?' &&
         (|more| < 5 || more[2] != '?' ||
          forall k :: 3 <= k && k + 1 < |more| ==> !(more[k] == '?' && more[k + 1] == '='))))
  }

  lemma NoEndFound(h: Text, i: nat)
    requires i + 5 <= |h| && forall k :: i + 3 <= k && k + 1 < |h| ==> !(h[k] == '?' && h[k + 1] == '=')
    ensures Index2(h, '?', '=', i + 3) == |h|
  {
  }

  lemma FindNothing(charset: Text, more: Text)
    requires NeverEnds(charset, more)
    ensures Find("=?" + (charset + more)) == None
  {
    hide IndexFrom, Index2;
    var h := "=?" + (charset + more);
    var i := 2 + |charset|;
    Index2Is(h, '=', '?', 0, 0);
    assert forall k :: 2 <= k < i ==> h[k] == charset[k - 2];
    assert forall k :: i <= k < |h| ==> h[k] == more[k - i];
    IndexIs(h, '?', 2, i);
    if |h| >= i + 5 && h[i + 2] == '?' { NoEndFound(h, i); }
  }

  /** A header that ends in an unfinished encoded-word comes back unchanged. */
  lemma UnfinishedHeader(lib: Lib, text: Text, charset: Text, more: Text)
    requires NoStart(text) && NeverEnds(charset, more)
    ensures var h := text + ("=?" + (charset + more)); DecodeHeader(lib, h) == Some(h)
  {
    hide NeverEnds, Find, Index2;
    var w := "=?" + (charset + more);
    var h := text + w;
    FindNothing(charset, more);
    assert forall k :: 0 <= k < |text| ==> h[k] == text[k];
    assert h[|text|] == '=' && h[|text| + 1] == '?' && h[..|text|] == text && h[|text|..] == w;
    Index2Is(h, '=', '?', 0, |text|);
  }

  /** Q text can be seen, and has no question mark: a word has no white space in it. */
  lemma {:induction false} QTextIsVisible(s: Text)
    requires IsBytes(s)
    ensures forall k :: 0 <= k < |QString(s)| ==> '!' <= QString(s)[k] <= '~' && QString(s)[k] != '?'
  {
    if s != "" {
      QTextIsVisible(s[..|s| - 1]);
      assert QString(s) == QString(s[..|s| - 1]) + QChar(s[|s| - 1]);
    }
  }
}
