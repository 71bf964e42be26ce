/** ParseMediaType undoes FormatMediaType. */
module MediaTypeRoundTrip {

  import opened Common
  import opened Grammar
  import opened MediaType

  // ----- the loops of the parser

  /** Checks and counts first, then fills an array of the right size. */
  method PercentHexUnescape(s: Text) returns (r: Text, ok: bool)
    ensures ok == PercentUnescape(s).Some? && r == if ok then PercentUnescape(s).value else ""
  {
    var percents: nat := 0;
    var i: nat := 0;
    assert s[0..] == s;
    while i < |s|
      invariant i <= |s| && PercentUnescape(s[i..]).Some? == PercentUnescape(s).Some?
      invariant PercentUnescape(s).Some? ==>
        |PercentUnescape(s).value| == |PercentUnescape(s[i..]).value| + i - 2 * percents
      invariant percents == 0 ==> '%' !in s[..i]
    {
      if s[i] != '%' {
        assert s[i..][1..] == s[i + 1..];
        i := i + 1;
        continue;
      }
      percents := percents + 1;
      if i + 2 >= |s| || !IsHex(s[i + 1]) || !IsHex(s[i + 2]) {
        return "", false;
      }
      assert s[i..][3..] == s[i + 3..];
      i := i + 3;
    }
    assert s[i..] == "";
    if percents == 0 {
      assert s[..i] == s;
      NoPercent(s);
      return s, true;
    }
    r := Fill(s, percents);
    ok := true;
  }

  lemma {:induction false} NoPercent(s: Text)
    requires '%' !in s
    ensures PercentUnescape(s) == Some(s)
  {
    if s != "" {
      assert s == [s[0]] + s[1..];
      NoPercent(s[1..]);
    }
  }

  method Fill(s: Text, percents: nat) returns (r: Text)
    requires PercentUnescape(s).Some? && |PercentUnescape(s).value| == |s| - 2 * percents
    ensures r == PercentUnescape(s).value
  {
    var t := new char[|s| - 2 * percents];
    var j: nat := 0;
    var i: nat := 0;
    assert s[0..] == s;
    while i < |s|
      invariant i <= |s| && j <= t.Length && PercentUnescape(s[i..]).Some?
      invariant t[..j] + PercentUnescape(s[i..]).value == PercentUnescape(s).value
    {
      ghost var was := t[..j];
      assert |PercentUnescape(s[i..]).value| > 0;
      if s[i] == '%' {
        assert s[i..][3..] == s[i + 3..];
        t[j] := FromHex(s[i + 1], s[i + 2]);
        assert t[..j + 1] == was + [FromHex(s[i + 1], s[i + 2])];
        Cat(was, [t[j]], PercentUnescape(s[i + 3..]).value);
        i := i + 3;
      } else {
        assert s[i..][1..] == s[i + 1..];
        t[j] := s[i];
        assert t[..j + 1] == was + [s[i]];
        Cat(was, [t[j]], PercentUnescape(s[i + 1..]).value);
        i := i + 1;
      }
      j := j + 1;
    }
    assert s[i..] == "";
    r := t[..j];
    assert r == PercentUnescape(s).value;
  }

  // ----- one value in each of its three forms

  /** A text begins a parameter or ends the header. */
  predicate AtSemicolon(rest: Text) { rest == "" || rest[0] == ';' }

  lemma {:induction false} TokenStops(tok: Text, rest: Text, i: nat)
    requires AllToken(tok) && i <= |tok| && (rest == "" || !IsTokenChar(rest[0]))
    ensures TokenEnd(tok + rest, i) == |tok|
    decreases |tok| - i
  {
    if i < |tok| {
      assert (tok + rest)[i] == tok[i];
      TokenStops(tok, rest, i + 1);
    } else if rest != "" {
      assert (tok + rest)[i] == rest[0];
    }
  }

  lemma TokenValue(tok: Text, rest: Text)
    requires AllToken(tok) && tok != "" && (rest == "" || !IsTokenChar(rest[0]))
    ensures ConsumeToken(tok + rest) == Taken(tok, rest) && ConsumeValue(tok + rest) == Taken(tok, rest)
  {
    TokenStops(tok, rest, 0);
    assert (tok + rest)[0] == tok[0];
    assert (tok + rest)[..|tok|] == tok && (tok + rest)[|tok|..] == rest;
  }

  /** Escaped or not, one character of a quoted string is read back. */
  lemma QuotedChar(v: Text, i: nat, c: char, acc: Text)
    requires Plain(c)
    requires i + |QuoteChar(c)| < |v| && v[i..i + |QuoteChar(c)|] == QuoteChar(c)
    ensures Quoted(v, i, acc) == Quoted(v, i + |QuoteChar(c)|, acc + [c])
  {
    if c == '"' || c == '\\' {
      assert v[i..i + 2][0] == v[i] && v[i..i + 2][1] == v[i + 1];
    } else {
      assert v[i..i + 1][0] == v[i];
    }
  }

  lemma QuotedEnd(pre: Text, rest: Text, acc: Text)
    ensures Quoted(pre + ("\"" + rest), |pre|, acc) == Some(Taken(acc, rest))
  {
    var v := pre + ("\"" + rest);
    assert v[|pre| + 1..] == rest;
  }

  predicate Plain(c: char) { c == '\t' || ' ' <= c <= '~' }

  lemma {:induction false} QuotedFrom(pre: Text, s: Text, rest: Text, acc: Text)
    requires forall i :: 0 <= i < |s| ==> Plain(s[i])
    ensures Quoted(pre + (Quote(s) + ("\"" + rest)), |pre|, acc) == Some(Taken(acc + s, rest))
    decreases |s|
  {
    hide Quoted, QuoteChar, Plain;
    var v := pre + (Quote(s) + ("\"" + rest));
    if s == "" {
      assert Quote(s) == "";
      assert v == pre + ("\"" + rest) && acc + s == acc;
      QuotedEnd(pre, rest, acc);
    } else {
      var c := s[0];
      var q := QuoteChar(c);
      EachCons(QuoteChar, s);
      QuoteRest(pre, q, Quote(s[1..]), "\"" + rest);
      QuotedStep(pre, c, Quote(s[1..]) + ("\"" + rest), acc);
      QuotedFrom(pre + q, s[1..], rest, acc + [c]);
      assert (acc + [c]) + s[1..] == acc + s;
    }
  }

  lemma QuotedStep(pre: Text, c: char, more: Text, acc: Text)
    requires Plain(c) && more != ""
    ensures var v := (pre + QuoteChar(c)) + more;
            Quoted(v, |pre|, acc) == Quoted(v, |pre + QuoteChar(c)|, acc + [c])
  {
    hide Quoted;
    var v := (pre + QuoteChar(c)) + more;
    assert v[|pre|..|pre| + |QuoteChar(c)|] == QuoteChar(c);
    QuotedChar(v, |pre|, c, acc);
  }

  lemma QuoteRest(pre: Text, q: Text, t: Text, rest: Text)
    ensures pre + ((q + t) + rest) == (pre + q) + (t + rest)
  {
  }

  lemma QuotedValue(s: Text, rest: Text)
    requires !NeedsEncoding(s)
    ensures ConsumeValue(("\"" + Quote(s) + "\"") + rest) == Taken(s, rest)
  {
    QuotedFrom("\"", s, rest, "");
    assert ("\"" + Quote(s) + "\"") + rest == "\"" + (Quote(s) + ("\"" + rest));
    assert "" + s == s;
  }

  lemma {:induction false} PercentRoundTrip(s: Text)
    requires IsBytes(s)
    ensures PercentUnescape(Percent(s)) == Some(s)
  {
    if s != "" {
      EachCons(PercentChar, s);
      PercentRoundTrip(s[1..]);
      HexRoundTrip(s[0]);
      assert s == [s[0]] + s[1..];
      var p := PercentChar(s[0]);
      assert (p + Percent(s[1..]))[|p|..] == Percent(s[1..]);
    }
  }

  lemma PercentCharIsToken(c: char)
    requires c as int < 256
    ensures AllToken(PercentChar(c)) && '\'' !in PercentChar(c)
  {
  }

  lemma {:induction false} PercentIsToken(s: Text)
    requires IsBytes(s)
    ensures AllToken(Percent(s)) && '\'' !in Percent(s)
  {
    if s != "" {
      var c := s[|s| - 1];
      PercentIsToken(s[..|s| - 1]);
      PercentCharIsToken(c);
      assert Percent(s) == Percent(s[..|s| - 1]) + PercentChar(c);
    }
  }

  lemma GoodKeyLower(k: Text)
    requires IsLower(k)
    ensures LowerAscii(k) == k
  {
  }

  lemma Utf8Lower(lib: Lib)
    requires LibOk(lib)
    ensures lib.lower("utf-8") == "utf-8"
  {
    hide TrimOk, SpacesOk, LowerAscii;
    var u := "utf-8";
    GoodKeyLower(u);
    assert IsAscii(u);
  }

  lemma ExtendedParts(p: Text)
    ensures var v := EXTENDED + p;
            && |v| >= 7 && IndexFrom(v, '\'', 0) == 5 && IndexFrom(v, '\'', 6) == 6
            && v[..5] == "utf-8" && v[7..] == p
  {
    hide IndexFrom;
    var v := EXTENDED + p;
    IndexIs(v, '\'', 0, 5);
    IndexIs(v, '\'', 6, 6);
  }

  lemma ExtendedValue(lib: Lib, s: Text)
    requires LibOk(lib) && IsBytes(s)
    ensures Decode2231(lib, EXTENDED + Percent(s)) == Some(s)
  {
    hide LibOk, PercentUnescape, IndexFrom, EXTENDED, Percent, IsBytes;
    PercentRoundTrip(s);
    ExtendedParts(Percent(s));
    Utf8Lower(lib);
  }

  lemma ExtendedIsToken(s: Text)
    requires IsBytes(s)
    ensures AllToken(EXTENDED + Percent(s))
  {
    hide Percent, IsBytes;
    PercentIsToken(s);
    assert AllToken(EXTENDED);
  }

  // ----- one parameter

  lemma NoSpace(lib: Lib, v: Text)
    requires LibOk(lib) && v != "" && '!' <= v[0] <= '~'
    ensures TrimLeft(lib, v) == v
  {
    hide LowerOk, TrimOk;
    assert v[0..] == v;
  }

  lemma OneSpace(lib: Lib, v: Text)
    requires LibOk(lib) && |v| > 1 && v[0] == ' ' && '!' <= v[1] <= '~'
    ensures TrimLeft(lib, v) == v[1..]
  {
    hide LowerOk, TrimOk;
    assert lib.spaces(v) == 1 + lib.spaces(v[1..]);
    assert lib.spaces(v[1..]) == 0;
  }

  lemma LowerTokenChar(c: char)
    requires IsTokenChar(c)
    ensures IsTokenChar(LowerChar(c))
  {
  }

  lemma LowerIsToken(s: Text)
    requires AllToken(s)
    ensures AllToken(LowerAscii(s)) && |LowerAscii(s)| == |s|
  {
    hide IsTokenChar, LowerChar;
    forall i | 0 <= i < |s| ensures IsTokenChar(LowerAscii(s)[i]) { LowerTokenChar(s[i]); }
  }

  lemma LowerToken(lib: Lib, name: Text)
    requires LibOk(lib) && AllToken(name)
    ensures lib.lower(name) == LowerAscii(name) && AllToken(LowerAscii(name))
  {
    hide TrimOk, SpacesOk, LowerAscii;
    assert IsAscii(name);
    LowerIsToken(name);
  }

  /** ConsumeMediaParam on "; name=" followed by a value that ConsumeValue takes off. */
  lemma ParamIs(lib: Lib, name: Text, w: Text, value: Text, rest: Text)
    requires LibOk(lib) && IsToken(name) && w != "" && '!' <= w[0] <= '~'
    requires ConsumeValue(w) == Taken(value, rest) && |rest| < |w|
    ensures ConsumeMediaParam(lib, "; " + (name + ("=" + w))) == MediaParam(LowerAscii(name), value, rest)
  {
    hide LibOk, TrimLeft, ConsumeToken, ConsumeValue, LowerAscii;
    var eq := "=" + w;
    var v1 := name + eq;
    var v := "; " + v1;
    NoSpace(lib, v);
    var sp := " " + v1;
    assert v[1..] == sp;
    OneSpace(lib, sp);
    assert sp[1..] == v1;
    TokenValue(name, eq);
    LowerToken(lib, name);
    NoSpace(lib, eq);
    assert eq[1..] == w;
    NoSpace(lib, w);
  }

  /** The name, and for an extended value its star. */
  function Name(k: Text, s: Text): Text { k + if NeedsEncoding(s) then "*" else "" }

  function Raw(s: Text): Text { if NeedsEncoding(s) then EXTENDED + Percent(s) else s }

  /** The value as written, without the star and the equals sign. */
  function Written(s: Text): Text {
    if NeedsEncoding(s) then EXTENDED + Percent(s) else if IsToken(s) then s else "\"" + Quote(s) + "\""
  }

  lemma ReadWritten(s: Text, rest: Text)
    requires IsBytes(s) && AtSemicolon(rest)
    ensures ConsumeValue(Written(s) + rest) == Taken(Raw(s), rest)
    ensures Written(s) != "" && '!' <= Written(s)[0] <= '~'
  {
    hide NeedsEncoding, ConsumeValue, Percent, Quote, IsBytes;
    assert EXTENDED != "" && EXTENDED[0] == 'u';
    if NeedsEncoding(s) {
      ExtendedIsToken(s);
      TokenValue(EXTENDED + Percent(s), rest);
    } else if IsToken(s) {
      TokenValue(s, rest);
    } else {
      QuotedValue(s, rest);
    }
  }

  lemma Spread(k: Text, s: Text, rest: Text)
    ensures ("; " + k + Value(s)) + rest == "; " + (Name(k, s) + ("=" + (Written(s) + rest)))
  {
    hide NeedsEncoding, IsToken, Percent, Quote, EXTENDED;
    if NeedsEncoding(s) {
      SpreadStar(k, EXTENDED + Percent(s), rest);
    } else {
      assert k + "" == k;
      SpreadPlain(k, Written(s), rest);
    }
  }

  lemma SpreadPlain(k: Text, x: Text, rest: Text)
    ensures ("; " + k + ("=" + x)) + rest == "; " + (k + ("=" + (x + rest)))
  {
  }

  lemma SpreadStar(k: Text, x: Text, rest: Text)
    ensures ("; " + k + ("*=" + x)) + rest == "; " + ((k + "*") + ("=" + (x + rest)))
  {
  }

  lemma ReadParam(lib: Lib, k: Text, s: Text, rest: Text)
    requires LibOk(lib) && IsToken(k) && IsLower(k) && IsBytes(s) && AtSemicolon(rest)
    ensures ConsumeMediaParam(lib, ("; " + k + Value(s)) + rest) == MediaParam(Name(k, s), Raw(s), rest)
  {
    hide NeedsEncoding, IsBytes, Value, Written, Raw, ConsumeMediaParam, LibOk;
    Spread(k, s, rest);
    ReadWritten(s, rest);
    ParamIs(lib, Name(k, s), Written(s) + rest, Raw(s), rest);
    assert LowerAscii(Name(k, s)) == Name(k, s);
  }

  // ----- all parameters

  /** Keys that survive the round trip. */
  predicate GoodKey(k: Text) { IsToken(k) && IsLower(k) && '*' !in k }

  ghost predicate GoodParams(p: map<Text, Text>) {
    forall k :: k in p ==> GoodKey(k) && IsBytes(p[k])
  }

  function Piece(k: Text, s: Text): Text { "; " + k + Value(s) }

  lemma {:induction false} ParamsCons(keys: seq<Text>, p: map<Text, Text>)
    requires keys != [] && keys[0] in p && IsLower(keys[0])
    ensures Params(keys, p) == Piece(keys[0], p[keys[0]]) + Params(keys[1..], p)
    decreases |keys|
  {
    hide Value, LowerAscii;
    GoodKeyLower(keys[0]);
    var n := |keys| - 1;
    var piece := Piece(keys[0], p[keys[0]]);
    if n == 0 {
      assert keys[..0] == [] && keys[1..] == [];
      assert Params(keys, p) == "" + piece == piece + "";
    } else {
      var last := if keys[n] in p then "; " + LowerAscii(keys[n]) + Value(p[keys[n]]) else "";
      ParamsCons(keys[..n], p);
      assert keys[..n][1..] == keys[1..][..n - 1];
      Cat(piece, Params(keys[1..][..n - 1], p), last);
    }
  }

  function AccOf(done: set<Text>, p: map<Text, Text>): Acc {
    Acc(map k | k in p && k in done && !NeedsEncoding(p[k]) :: p[k],
        map k | k in p && k in done && NeedsEncoding(p[k]) :: map[k + "*" := Raw(p[k])])
  }

  lemma StoreOne(k: Text, p: map<Text, Text>, done: set<Text>)
    requires k in p && GoodKey(k) && k !in done
    ensures Store(AccOf(done, p), Name(k, p[k]), Raw(p[k])) == Some(AccOf(done + {k}, p))
  {
    hide NeedsEncoding, Percent, EXTENDED, IsToken, IsLower;
    var s := p[k];
    var acc := AccOf(done, p);
    var next := AccOf(done + {k}, p);
    if NeedsEncoding(s) {
      IndexIs(k + "*", '*', 0, |k|);
      assert (k + "*")[..|k|] == k;
      assert next.parts == acc.parts[k := map[k + "*" := Raw(s)]];
      assert next.params == acc.params;
    } else {
      assert k + "" == k;
      IndexIs(k, '*', 0, |k|);
      assert next.params == acc.params[k := s];
      assert next.parts == acc.parts;
    }
  }

  lemma ParamsAtSemicolon(keys: seq<Text>, p: map<Text, Text>)
    requires GoodParams(p) && forall i :: 0 <= i < |keys| ==> keys[i] in p
    ensures AtSemicolon(Params(keys, p)) && (keys == [] <==> Params(keys, p) == "")
  {
    hide Value, IsBytes, IsToken, IsLower;
    if keys != [] {
      assert GoodKey(keys[0]);
      ParamsCons(keys, p);
    }
  }

  lemma ParseStep(lib: Lib, v: Text, acc: Acc, key: Text, value: Text, rest: Text, acc1: Acc)
    requires v != "" && TrimLeft(lib, v) == v && key != "" && Store(acc, key, value) == Some(acc1)
    requires ConsumeMediaParam(lib, v) == MediaParam(key, value, rest)
    ensures ParseParams(lib, v, acc) == ParseParams(lib, rest, acc1)
  {
    hide TrimLeft, Store, ConsumeMediaParam;
  }

  lemma GoodParamIs(p: map<Text, Text>, k: Text)
    requires GoodParams(p) && k in p
    ensures IsToken(k) && IsLower(k) && GoodKey(k) && IsBytes(p[k])
  {
  }

  lemma NameIs(k: Text, s: Text)
    requires IsToken(k)
    ensures Name(k, s) != ""
  {
  }

  lemma PieceIs(k: Text, s: Text, tail: Text)
    ensures Piece(k, s) == "; " + k + Value(s)
    ensures Piece(k, s) + tail != "" && (Piece(k, s) + tail)[0] == ';'
  {
    hide Value;
  }

  lemma NoParams(p: map<Text, Text>)
    ensures Params([], p) == ""
  {
  }

  lemma AccOfNone(p: map<Text, Text>)
    ensures AccOf({}, p) == Acc(map[], map[])
  {
  }

  lemma ParseFirst(lib: Lib, keys: seq<Text>, p: map<Text, Text>, done: set<Text>)
    requires LibOk(lib) && keys != [] && GoodParams(p) && keys[0] !in done
    requires forall i :: 0 <= i < |keys| ==> keys[i] in p
    ensures ParseParams(lib, Params(keys, p), AccOf(done, p)) ==
        ParseParams(lib, Params(keys[1..], p), AccOf(done + {keys[0]}, p))
  {
    hide *;
    var k := keys[0];
    GoodParamIs(p, k);
    var v, tail := Params(keys, p), Params(keys[1..], p);
    ParamsCons(keys, p);
    ParamsAtSemicolon(keys[1..], p);
    ReadParam(lib, k, p[k], tail);
    PieceIs(k, p[k], tail);
    NoSpace(lib, v);
    StoreOne(k, p, done);
    NameIs(k, p[k]);
    ParseStep(lib, v, AccOf(done, p), Name(k, p[k]), Raw(p[k]), tail, AccOf(done + {k}, p));
  }

  lemma ParseNone(lib: Lib, acc: Acc)
    ensures ParseParams(lib, "", acc) == Stored(acc)
  {
  }

  lemma {:induction false} ParseAll(lib: Lib, keys: seq<Text>, p: map<Text, Text>, done: set<Text>)
    requires LibOk(lib) && GoodParams(p)
    requires forall i :: 0 <= i < |keys| ==> keys[i] in p && keys[i] !in done
    requires forall i, j :: 0 <= i < j < |keys| ==> keys[i] != keys[j]
    ensures ParseParams(lib, Params(keys, p), AccOf(done, p)) == Stored(AccOf(done + (set k | k in keys), p))
    decreases |keys|
  {
    hide *;
    if keys == [] {
      NoParams(p);
      ParseNone(lib, AccOf(done, p));
      assert done + (set k | k in keys) == done;
    } else {
      ParseFirst(lib, keys, p, done);
      ParseAll(lib, keys[1..], p, done + {keys[0]});
      assert (done + {keys[0]}) + (set x | x in keys[1..]) == done + (set x | x in keys);
    }
  }

  // ----- the whole header

  lemma PartOne(lib: Lib, k: Text, s: Text)
    requires LibOk(lib) && IsBytes(s)
    ensures PartsValue(lib, k, map[k + "*" := EXTENDED + Percent(s)]) == Some(s)
  {
    hide LibOk, Decode2231, Percent, EXTENDED, Join;
    ExtendedValue(lib, s);
  }

  lemma AssembleAll(lib: Lib, p: map<Text, Text>)
    requires LibOk(lib) && GoodParams(p)
    ensures Assemble(lib, AccOf(p.Keys, p)) == p
  {
    hide LibOk, NeedsEncoding, PartsValue, EXTENDED, Percent, GoodKey, IsBytes;
    var acc := AccOf(p.Keys, p);
    forall k | k in acc.parts ensures PartsValue(lib, k, acc.parts[k]) == Some(p[k]) {
      PartOne(lib, k, p[k]);
    }
    var r := Assemble(lib, acc);
    assert forall k :: k in p ==> k in r && r[k] == p[k];
    assert forall k :: k in r ==> k in p;
  }

  lemma TokenIsPlain(s: Text)
    requires AllToken(s)
    ensures forall i :: 0 <= i < |s| ==> '!' <= s[i] <= '~' && s[i] != ';'
  {
  }

  lemma OneTokenChecks(s: Text)
    requires IsToken(s)
    ensures Checked(s)
  {
    hide IsTokenChar;
    TokenStops(s, "", 0);
    assert s + "" == s;
  }

  lemma TwoTokensCheck(major: Text, sub: Text)
    requires IsToken(major) && IsToken(sub)
    ensures Checked(major + ("/" + sub))
  {
    var rest := "/" + sub;
    TokenStops(major, rest, 0);
    assert (major + rest)[|major|..] == rest && (major + rest)[..|major|] == major;
    assert rest[1..] == sub;
    OneTokenChecks(sub);
    TokenStops(sub, "", 0);
    assert sub + "" == sub;
  }

  lemma TypeChecks(t: Text)
    requires TypeOk(t)
    ensures Checked(LowerAscii(t)) && forall i :: 0 <= i < |t| ==>
        '!' <= LowerAscii(t)[i] <= '~' && LowerAscii(t)[i] != ';'
  {
    hide Checked, AllToken, LowerAscii, IsTokenChar;
    var i := IndexFrom(t, '/', 0);
    if i == |t| {
      LowerIsToken(t);
      OneTokenChecks(LowerAscii(t));
      TokenIsPlain(LowerAscii(t));
    } else {
      var major, sub := LowerAscii(t[..i]), LowerAscii(t[i + 1..]);
      LowerIsToken(t[..i]);
      LowerIsToken(t[i + 1..]);
      LowerAround(t, i);
      Cat(major, "/", sub);
      TwoTokensCheck(major, sub);
      TokenIsPlain(major);
      TokenIsPlain(sub);
    }
  }

  lemma LowerTwice(t: Text)
    ensures LowerAscii(LowerAscii(t)) == LowerAscii(t)
  {
  }

  lemma BaseIs(lib: Lib, t: Text, rest: Text)
    requires LibOk(lib) && TypeOk(t) && AtSemicolon(rest)
    ensures var v := LowerAscii(t) + rest;
            var semi := IndexFrom(v, ';', 0);
            v[semi..] == rest && lib.trim(lib.lower(v[..semi])) == LowerAscii(t)
  {
    hide TypeOk, Checked, IndexFrom, LowerAscii;
    var l := LowerAscii(t);
    TypeChecks(t);
    IndexIs(l + rest, ';', 0, |l|);
    assert (l + rest)[..|l|] == l;
    LowerTwice(t);
    assert IsAscii(l);
  }

  /** For a valid media type and parameters whose names are lower-case tokens without a
      star, and any values, parsing what was formatted gives them back. */
  lemma RoundTrip(lib: Lib, t: Text, p: map<Text, Text>, keys: seq<Text>)
    requires LibOk(lib) && TypeOk(t) && GoodParams(p) && Orders(keys, p)
    ensures ParseMediaType(lib, LowerAscii(t) + Params(keys, p)) == Parsed(LowerAscii(t), p)
  {
    hide LibOk, TypeOk, Checked, IndexFrom, Assemble, ParseParams, AccOf, Params, LowerAscii, GoodParams;
    ParamsAtSemicolon(keys, p);
    BaseIs(lib, t, Params(keys, p));
    TypeChecks(t);
    AccOfNone(p);
    ParseAll(lib, keys, p, {});
    assert {} + (set k | k in keys) == p.Keys;
    AssembleAll(lib, p);
  }

  // ----- and for no other names

  ghost predicate LowerNoStar(k: Text) { IsLower(k) && '*' !in k }

  ghost predicate AccGood(acc: Acc) {
    (forall k :: k in acc.params ==> LowerNoStar(k)) && (forall k :: k in acc.parts ==> LowerNoStar(k))
  }

  lemma StoreGood(acc: Acc, key: Text, value: Text)
    requires AccGood(acc) && IsLower(key) && Store(acc, key, value).Some?
    ensures AccGood(Store(acc, key, value).value)
  {
    var star := IndexFrom(key, '*', 0);
    assert LowerNoStar(key[..star]);
    assert star == |key| ==> key[..star] == key;
  }

  lemma KeyIsLower(lib: Lib, v: Text)
    requires LibOk(lib)
    ensures IsLower(ConsumeMediaParam(lib, v).key)
  {
    hide LibOk, ConsumeValue, TrimLeft;
    var v1 := TrimLeft(lib, v);
    if v1 != "" && v1[0] == ';' {
      LowerToken(lib, ConsumeToken(TrimLeft(lib, v1[1..])).value);
    }
  }

  lemma {:induction false} ParsedGood(lib: Lib, v: Text, acc: Acc)
    requires LibOk(lib) && AccGood(acc) && ParseParams(lib, v, acc).Stored?
    ensures AccGood(ParseParams(lib, v, acc).acc)
    decreases |v|
  {
    hide LibOk, Store, ConsumeMediaParam, AccGood;
    var v1 := TrimLeft(lib, v);
    if v1 != "" {
      var m := ConsumeMediaParam(lib, v1);
      if m.key != "" {
        KeyIsLower(lib, v1);
        StoreGood(acc, m.key, m.value);
        ParsedGood(lib, m.rest, Store(acc, m.key, m.value).value);
      }
    }
  }

  lemma ParsedKeys(lib: Lib, v: Text, k: Text)
    requires LibOk(lib) && ParseMediaType(lib, v).Parsed? && k in ParseMediaType(lib, v).params
    ensures LowerNoStar(k)
  {
    hide LibOk, ParseParams, PartsValue, LowerNoStar;
    var acc := Acc(map[], map[]);
    ParsedGood(lib, v[IndexFrom(v, ';', 0)..], acc);
  }

  lemma EmptyText(lib: Lib)
    requires LibOk(lib)
    ensures ParseMediaType(lib, "") == NoMediaType
  {
    assert IsAscii("") && LowerAscii("") == "";
    assert ""[..0] == "";
  }

  /** Exactly the parameters with such names survive, whatever their values. */
  lemma RoundTripIff(lib: Lib, t: Text, p: map<Text, Text>, keys: seq<Text>)
    requires LibOk(lib) && TypeOk(t) && Orders(keys, p) && forall k :: k in p ==> IsBytes(p[k])
    ensures var formatted := if forall k :: k in p ==> IsToken(k) then LowerAscii(t) + Params(keys, p) else "";
            ParseMediaType(lib, formatted) == Parsed(LowerAscii(t), p) <==> forall k :: k in p ==> GoodKey(k)
  {
    hide LibOk, TypeOk, ParseMediaType, Params, LowerAscii, IsToken, IsLower, IsBytes;
    if forall k :: k in p ==> IsToken(k) {
      var v := LowerAscii(t) + Params(keys, p);
      if forall k :: k in p ==> GoodKey(k) {
        RoundTrip(lib, t, p, keys);
      } else if ParseMediaType(lib, v) == Parsed(LowerAscii(t), p) {
        forall k | k in p ensures GoodKey(k) { ParsedKeys(lib, v, k); }
      }
    } else {
      EmptyText(lib);
    }
  }

  // ----- the parser's own loop

  method Parse(lib: Lib, v0: Text) returns (r: Result)
    ensures r == ParseMediaType(lib, v0)
  {
    hide Checked, ConsumeMediaParam, Store, Assemble;
    var semi := IndexFrom(v0, ';', 0);
    var mediatype := lib.trim(lib.lower(v0[..semi]));
    if !Checked(mediatype) { return NoMediaType; }
    var acc := Acc(map[], map[]);
    var v := v0[semi..];
    while |v| > 0
      invariant ParseParams(lib, v, acc) == ParseParams(lib, v0[semi..], Acc(map[], map[]))
      decreases |v|
    {
      v := TrimLeft(lib, v);
      if |v| == 0 { break; }
      var m := ConsumeMediaParam(lib, v);
      if m.key == "" {
        if lib.trim(m.rest) == ";" { break; }
        return InvalidParameter(mediatype);
      }
      var acc1 := Store(acc, m.key, m.value);
      if acc1.None? { return DuplicateName; }
      acc, v := acc1.value, m.rest;
    }
    return Parsed(mediatype, Assemble(lib, acc));
  }
}
