/** mime/mediatype.go: media types and their parameters (section 5.1 of RFC 2045,
    sections 3, 4 and 7 of RFC 2231). */
module MediaType {

  import opened Common
  import opened Grammar

  // ----- formatting

  /** Not an attribute-char: these are percent-encoded (section 7 of RFC 2231). */
  predicate IsPercented(c: char) {
    c <= ' ' || c as int >= 0x7F || c == '*' || c == '\'' || c == '%' || IsTSpecial(c)
  }

  function PercentChar(c: char): Text { if IsPercented(c) then ['%', High(c), Low(c)] else [c] }

  function Percent(v: Text): Text { Each(PercentChar, v) }

  function QuoteChar(c: char): Text { if c == '"' || c == '\\' then ['\\', c] else [c] }

  function Quote(v: Text): Text { Each(QuoteChar, v) }

  const EXTENDED: Text := "utf-8''"

  /** The value in the form it needs. */
  function Value(v: Text): Text {
    if NeedsEncoding(v) then "*=" + (EXTENDED + Percent(v))
    else if IsToken(v) then "=" + v
    else "=" + ("\"" + Quote(v) + "\"")
  }

  function Params(keys: seq<Text>, p: map<Text, Text>): Text {
    if keys == [] then ""
    else
      var k := keys[|keys| - 1];
      Params(keys[..|keys| - 1], p) + (if k in p then "; " + LowerAscii(k) + Value(p[k]) else "")
  }

  predicate TypeOk(t: Text) {
    var i := IndexFrom(t, '/', 0);
    if i == |t| then IsToken(t) else IsToken(t[..i]) && IsToken(t[i + 1..])
  }

  /** keys is p's keys in some order; the source sorts them. */
  ghost predicate Orders(keys: seq<Text>, p: map<Text, Text>) {
    && (forall i :: 0 <= i < |keys| ==> keys[i] in p)
    && (forall k :: k in p ==> k in keys)
    && (forall i, j :: 0 <= i < j < |keys| ==> keys[i] != keys[j])
  }

  /** The value percent-encoded, unchanged stretches in one piece. */
  method WritePercent(value: Text) returns (b: Text)
    ensures b == Percent(value)
  {
    hide IsPercented, High, Low;
    b := "";
    var offset: nat := 0;
    var index: nat := 0;
    while index < |value|
      invariant offset <= index <= |value|
      invariant b + value[offset..index] == Percent(value[..index])
    {
      var ch := value[index];
      assert value[..index + 1][..index] == value[..index];
      if IsPercented(ch) {
        b := b + value[offset..index];
        offset := index + 1;
        b := b + ['%', High(ch), Low(ch)];
      } else {
        assert value[offset..index + 1] == value[offset..index] + [ch];
        Cat(b, value[offset..index], [ch]);
      }
      index := index + 1;
    }
    assert value[..|value|] == value && value[offset..|value|] == value[offset..];
    b := b + value[offset..];
  }

  method WriteQuoted(value: Text) returns (b: Text)
    ensures b == Quote(value)
  {
    b := "";
    var offset: nat := 0;
    var index: nat := 0;
    while index < |value|
      invariant offset <= index <= |value|
      invariant b + value[offset..index] == Quote(value[..index])
    {
      var ch := value[index];
      assert value[..index + 1][..index] == value[..index];
      if ch == '"' || ch == '\\' {
        Cat(b + value[offset..index], ['\\'], [ch]);
        b := b + value[offset..index];
        offset := index;
        b := b + ['\\'];
        assert value[offset..index] == "" && value[offset..index + 1] == [ch];
      } else {
        assert value[offset..index + 1] == value[offset..index] + [ch];
        Cat(b, value[offset..index], [ch]);
      }
      index := index + 1;
    }
    assert value[..|value|] == value && value[offset..|value|] == value[offset..];
    b := b + value[offset..];
  }

  lemma LowerAround(t: Text, i: nat)
    requires i < |t| && t[i] == '/'
    ensures LowerAscii(t[..i]) + "/" + LowerAscii(t[i + 1..]) == LowerAscii(t)
  {
  }

  /** The empty text when a name is not a token. */
  method FormatMediaType(t: Text, p: map<Text, Text>, keys: seq<Text>) returns (b: Text)
    requires Orders(keys, p)
    ensures b == if TypeOk(t) && (forall k :: k in p ==> IsToken(k)) then LowerAscii(t) + Params(keys, p) else ""
  {
    hide Value, NeedsEncoding, IsToken, LowerAscii;
    var i := IndexFrom(t, '/', 0);
    if i == |t| {
      if !IsToken(t) { return ""; }
      b := LowerAscii(t);
    } else {
      if !IsToken(t[..i]) || !IsToken(t[i + 1..]) { return ""; }
      b := LowerAscii(t[..i]) + "/" + LowerAscii(t[i + 1..]);
      LowerAround(t, i);
    }
    var n: nat := 0;
    while n < |keys|
      invariant n <= |keys|
      invariant forall j :: 0 <= j < n ==> IsToken(keys[j])
      invariant b == LowerAscii(t) + Params(keys[..n], p)
    {
      var k := keys[n];
      if !IsToken(k) { return ""; }
      assert keys[..n + 1][..n] == keys[..n];
      Cat(LowerAscii(t), Params(keys[..n], p), "; " + LowerAscii(k) + Value(p[k]));
      b := WriteParam(b, k, p[k]);
      n := n + 1;
    }
    assert keys[..|keys|] == keys;
  }

  method WriteParam(b0: Text, attribute: Text, value: Text) returns (b: Text)
    ensures b == b0 + ("; " + LowerAscii(attribute) + Value(value))
  {
    hide NeedsEncoding, IsToken, Percent, Quote, LowerAscii;
    b := b0 + ("; " + LowerAscii(attribute));
    ghost var b1 := b;
    var needEnc := NeedsEncoding(value);
    if needEnc { b := b + "*"; }
    b := b + "=";
    if needEnc {
      var e := WritePercent(value);
      b := b + EXTENDED + e;
      assert b == b1 + ("*=" + (EXTENDED + e));
    } else if IsToken(value) {
      b := b + value;
      assert b == b1 + ("=" + value);
    } else {
      var q := WriteQuoted(value);
      b := b + "\"" + q + "\"";
      assert b == b1 + ("=" + ("\"" + q + "\""));
    }
    Cat(b0, "; " + LowerAscii(attribute), Value(value));
  }

  // ----- parsing

  /** What package strings does to text that need not be ASCII: ToLower, TrimSpace, and
      the number of leading bytes that TrimLeftFunc(v, unicode.IsSpace) removes. */
  datatype Lib = Lib(lower: Text -> Text, trim: Text -> Text, spaces: Text -> nat)

  predicate IsAsciiSpace(c: char) { c == ' ' || '\t' <= c <= '\r' }

  /** What is promised of them for ASCII text. */
  ghost predicate LibOk(lib: Lib) { LowerOk(lib) && TrimOk(lib) && SpacesOk(lib) }

  ghost predicate LowerOk(lib: Lib) { forall v :: IsAscii(v) ==> lib.lower(v) == LowerAscii(v) }

  ghost predicate TrimOk(lib: Lib) { forall v :: AllVisible(v) ==> lib.trim(v) == v }

  predicate AllVisible(v: Text) { forall i :: 0 <= i < |v| ==> '!' <= v[i] <= '~' }

  ghost predicate SpacesOk(lib: Lib) {
    && (forall v :: v != "" && '!' <= v[0] <= '~' ==> lib.spaces(v) == 0)
    && (forall v :: v != "" && IsAsciiSpace(v[0]) ==> lib.spaces(v) == 1 + lib.spaces(v[1..]))
    && lib.spaces("") == 0
  }

  function TrimLeft(lib: Lib, v: Text): (r: Text)
    ensures |r| <= |v|
  {
    v[Min(lib.spaces(v), |v|)..]
  }

  function TokenEnd(v: Text, i: nat): (r: nat)
    requires i <= |v|
    ensures i <= r <= |v| && (forall k :: i <= k < r ==> IsTokenChar(v[k])) && (r < |v| ==> !IsTokenChar(v[r]))
    decreases |v| - i
  {
    if i == |v| || !IsTokenChar(v[i]) then i else TokenEnd(v, i + 1)
  }

  datatype Taken = Taken(value: Text, rest: Text)

  function ConsumeToken(v: Text): Taken { Taken(v[..TokenEnd(v, 0)], v[TokenEnd(v, 0)..]) }

  /** A quoted string from i on; only an escaped special character loses its backslash. */
  function Quoted(v: Text, i: nat, acc: Text): (r: Option<Taken>)
    ensures r.Some? ==> |r.value.rest| < |v| - i
    decreases |v| - i
  {
    if i >= |v| then None
    else if v[i] == '"' then Some(Taken(acc, v[i + 1..]))
    else if v[i] == '\\' && i + 1 < |v| && IsTSpecial(v[i + 1]) then Quoted(v, i + 2, acc + [v[i + 1]])
    else if v[i] == '\r' || v[i] == '\n' then None
    else Quoted(v, i + 1, acc + [v[i]])
  }

  function ConsumeValue(v: Text): (r: Taken)
    ensures |r.rest| <= |v|
  {
    if v == "" then Taken("", "")
    else if v[0] != '"' then ConsumeToken(v)
    else var q := Quoted(v, 1, ""); if q.Some? then q.value else Taken("", v)
  }

  method ConsumeQuoted(v: Text) returns (r: Taken)
    requires v != "" && v[0] == '"'
    ensures r == ConsumeValue(v)
  {
    var buffer := "";
    var i: nat := 1;
    while i < |v|
      invariant Quoted(v, i, buffer) == Quoted(v, 1, "")
    {
      if v[i] == '"' { return Taken(buffer, v[i + 1..]); }
      if v[i] == '\\' && i + 1 < |v| && IsTSpecial(v[i + 1]) {
        buffer := buffer + [v[i + 1]];
        i := i + 2;
        continue;
      }
      if v[i] == '\r' || v[i] == '\n' { return Taken("", v); }
      buffer := buffer + [v[i]];
      i := i + 1;
    }
    return Taken("", v);
  }

  datatype MediaParam = MediaParam(key: Text, value: Text, rest: Text)

  /** One parameter; an empty key when there is none. */
  function ConsumeMediaParam(lib: Lib, v: Text): (r: MediaParam)
    ensures r.key != "" ==> |r.rest| < |v|
  {
    var none := MediaParam("", "", v);
    var v1 := TrimLeft(lib, v);
    if v1 == "" || v1[0] != ';' then none
    else
      var t := ConsumeToken(TrimLeft(lib, v1[1..]));
      var key := lib.lower(t.value);
      var v2 := TrimLeft(lib, t.rest);
      if key == "" || v2 == "" || v2[0] != '=' then none
      else
        var v3 := TrimLeft(lib, v2[1..]);
        var w := ConsumeValue(v3);
        if w.value == "" && w.rest == v3 then none else MediaParam(key, w.value, w.rest)
  }

  /** The parameters met so far; those with a star are kept by what precedes it. */
  datatype Acc = Acc(params: map<Text, Text>, parts: map<Text, map<Text, Text>>)

  function Store(acc: Acc, key: Text, value: Text): Option<Acc> {
    var star := IndexFrom(key, '*', 0);
    if star == |key| then
      if key in acc.params && acc.params[key] != value then None
      else Some(acc.(params := acc.params[key := value]))
    else
      var m := if key[..star] in acc.parts then acc.parts[key[..star]] else map[];
      if key in m && m[key] != value then None
      else Some(acc.(parts := acc.parts[key[..star] := m[key := value]]))
  }

  datatype Result =
    | Parsed(mediatype: Text, params: map<Text, Text>)
    | NoMediaType
    | InvalidParameter(mediatype: Text)
    | DuplicateName

  datatype Loop = Stored(acc: Acc) | BadParam | Duplicate

  function ParseParams(lib: Lib, v: Text, acc: Acc): Loop
    decreases |v|
  {
    var v1 := TrimLeft(lib, v);
    if v1 == "" then Stored(acc)
    else
      var m := ConsumeMediaParam(lib, v1);
      if m.key == "" then if lib.trim(m.rest) == ";" then Stored(acc) else BadParam
      else
        var acc1 := Store(acc, m.key, m.value);
        if acc1.None? then Duplicate else ParseParams(lib, m.rest, acc1.value)
  }

  function PercentUnescape(s: Text): Option<Text>
  {
    if s == "" then Some("")
    else if s[0] != '%' then
      var r := PercentUnescape(s[1..]);
      if r.Some? then Some([s[0]] + r.value) else None
    else if |s| < 3 || !IsHex(s[1]) || !IsHex(s[2]) then None
    else
      var r := PercentUnescape(s[3..]);
      if r.Some? then Some([FromHex(s[1], s[2])] + r.value) else None
  }

  /** charset'language'text, for the two character sets that need no conversion. */
  function Decode2231(lib: Lib, v: Text): Option<Text> {
    var i := IndexFrom(v, '\'', 0);
    if i == |v| then None
    else
      var j := IndexFrom(v, '\'', i + 1);
      if j == |v| || lib.lower(v[..i]) !in {"us-ascii", "utf-8"} then None
      else PercentUnescape(v[j + 1..])
  }

  function Decimal(n: nat): Text {
    (if n < 10 then "" else Decimal(n / 10)) + [('0' as int + n % 10) as char]
  }

  function PartName(name: Text, n: nat): Text { name + "*" + Decimal(n) }

  /** The parts name*0, name*1, ... put together, each plain or (name*1*) encoded.  A part
      once used is dropped from m: no later one has its name (PartNamesDiffer). */
  function Join(lib: Lib, name: Text, m: map<Text, Text>, n: nat, buf: Text, valid: bool): Option<Text>
    decreases |m|
  {
    var simple := PartName(name, n);
    if simple in m then
      Smaller(m, simple);
      Join(lib, name, m - {simple}, n + 1, buf + m[simple], true)
    else if simple + "*" in m then
      Smaller(m, simple + "*");
      var v := m[simple + "*"];
      var d := if n == 0 then Decode2231(lib, v) else PercentUnescape(v);
      Join(lib, name, m - {simple + "*"}, n + 1, buf + (if d.Some? then d.value else ""), true)
    else if valid then Some(buf)
    else None
  }

  lemma Smaller(m: map<Text, Text>, k: Text)
    requires k in m
    ensures |m - {k}| < |m|
  {
    assert (m - {k}).Keys == m.Keys - {k};
    assert |m.Keys| == |m| && |(m - {k}).Keys| == |m - {k}|;
  }

  lemma {:induction false} DecimalIsDigits(n: nat)
    ensures var d := Decimal(n); d != "" && '0' <= d[|d| - 1] <= '9' && d[|d| - 1] as int - '0' as int == n % 10
    ensures |Decimal(n)| > 1 <==> n >= 10
    ensures Decimal(n)[..|Decimal(n)| - 1] == if n < 10 then "" else Decimal(n / 10)
  {
    if n >= 10 { DecimalIsDigits(n / 10); }
  }

  lemma {:induction false} DecimalInjective(a: nat, b: nat)
    requires Decimal(a) == Decimal(b)
    ensures a == b
  {
    hide Decimal;
    DecimalIsDigits(a);
    DecimalIsDigits(b);
    if a >= 10 { DecimalInjective(a / 10, b / 10); }
  }

  /** The names of different parts, plain or encoded, are different. */
  lemma PartNamesDiffer(name: Text, a: nat, b: nat)
    requires a != b
    ensures PartName(name, a) != PartName(name, b) && PartName(name, a) + "*" != PartName(name, b) + "*"
    ensures PartName(name, a) + "*" != PartName(name, b) && PartName(name, a) != PartName(name, b) + "*"
  {
    hide Decimal;
    var x, y := PartName(name, a), PartName(name, b);
    DecimalIsDigits(a);
    DecimalIsDigits(b);
    assert x[|name| + 1..] == Decimal(a) && y[|name| + 1..] == Decimal(b);
    if x == y { DecimalInjective(a, b); }
    assert (x + "*")[..|x|] == x && (y + "*")[..|y|] == y;
    assert x[|x| - 1] == Decimal(a)[|Decimal(a)| - 1] && y[|y| - 1] == Decimal(b)[|Decimal(b)| - 1];
    assert (x + "*")[|x + "*"| - 1] == '*' && (y + "*")[|y + "*"| - 1] == '*';
  }

  predicate Same(m: map<Text, Text>, left: map<Text, Text>, x: Text) {
    (x in left <==> x in m) && (x in m && x in left ==> left[x] == m[x])
  }

  /** Nothing of m from part n on is missing in left. */
  ghost predicate Left(name: Text, m: map<Text, Text>, left: map<Text, Text>, n: nat) {
    forall k: nat :: k >= n ==> Same(m, left, PartName(name, k)) && Same(m, left, PartName(name, k) + "*")
  }

  lemma DropPart(name: Text, m: map<Text, Text>, left: map<Text, Text>, n: nat, x: Text)
    requires Left(name, m, left, n) && (x == PartName(name, n) || x == PartName(name, n) + "*")
    ensures Left(name, m, left - {x}, n + 1)
  {
    hide PartName, Same;
    forall k: nat | k >= n + 1
      ensures Same(m, left - {x}, PartName(name, k)) && Same(m, left - {x}, PartName(name, k) + "*")
    {
      PartNamesDiffer(name, k, n);
      SameStays(m, left, PartName(name, k), x);
      SameStays(m, left, PartName(name, k) + "*", x);
    }
  }

  lemma SameStays(m: map<Text, Text>, left: map<Text, Text>, y: Text, x: Text)
    requires Same(m, left, y) && y != x
    ensures Same(m, left - {x}, y)
  {
  }

  /** The loop over the parts, which drops nothing. */
  method JoinParts(lib: Lib, name: Text, m: map<Text, Text>) returns (r: Option<Text>)
    ensures r == Join(lib, name, m, 0, "", false)
  {
    hide PartName, Decode2231, PercentUnescape;
    var buf, valid := "", false;
    var n: nat := 0;
    ghost var left := m;
    while true
      invariant Left(name, m, left, n)
      invariant Join(lib, name, left, n, buf, valid) == Join(lib, name, m, 0, "", false)
      decreases |left|
    {
      var simple := PartName(name, n);
      assert Same(m, left, simple) && Same(m, left, simple + "*");
      if simple in m {
        valid := true;
        buf := buf + m[simple];
        DropPart(name, m, left, n, simple);
        Smaller(left, simple);
        left, n := left - {simple}, n + 1;
        continue;
      }
      var encoded := simple + "*";
      if encoded !in m { break; }
      valid := true;
      var d := if n == 0 then Decode2231(lib, m[encoded]) else PercentUnescape(m[encoded]);
      buf := buf + if d.Some? then d.value else "";
      DropPart(name, m, left, n, encoded);
      Smaller(left, encoded);
      left, n := left - {encoded}, n + 1;
    }
    return if valid then Some(buf) else None;
  }

  function PartsValue(lib: Lib, name: Text, m: map<Text, Text>): Option<Text> {
    if name + "*" in m then Decode2231(lib, m[name + "*"]) else Join(lib, name, m, 0, "", false)
  }

  function Assemble(lib: Lib, acc: Acc): map<Text, Text> {
    acc.params +
    map k | k in acc.parts && PartsValue(lib, k, acc.parts[k]).Some? :: PartsValue(lib, k, acc.parts[k]).value
  }

  /** checkMediaTypeDisposition: token, or token/token. */
  predicate Checked(s: Text) {
    var t := ConsumeToken(s);
    && t.value != ""
    && (t.rest == "" ||
        (t.rest[0] == '/' && var u := ConsumeToken(t.rest[1..]); u.value != "" && u.rest == ""))
  }

  function ParseMediaType(lib: Lib, v: Text): Result {
    var semi := IndexFrom(v, ';', 0);
    var mediatype := lib.trim(lib.lower(v[..semi]));
    if !Checked(mediatype) then NoMediaType
    else
      match ParseParams(lib, v[semi..], Acc(map[], map[]))
      case Stored(acc) => Parsed(mediatype, Assemble(lib, acc))
      case BadParam => InvalidParameter(mediatype)
      case Duplicate => DuplicateName
  }
}
