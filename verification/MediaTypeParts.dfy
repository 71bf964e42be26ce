/** Parameter value continuations (section 3 of RFC 2231): a value in parts name*0, name*1,
    ..., each plain or percent-encoded, parses back to the value, in whatever order the
    parts are written. */
module MediaTypeParts {

  import opened Common
  import opened Grammar
  import opened MediaType
  import opened MediaTypeRoundTrip

  datatype Part = Part(text: Text, encoded: bool)

  predicate PartOk(p: Part) { IsBytes(p.text) && (p.encoded || !NeedsEncoding(p.text)) }

  /** The whole value. */
  function Whole(parts: seq<Part>, n: nat): Text
    requires n <= |parts|
    decreases |parts| - n
  {
    if n == |parts| then "" else parts[n].text + Whole(parts, n + 1)
  }

  function Key(name: Text, parts: seq<Part>, n: nat): Text
    requires n < |parts|
  {
    PartName(name, n) + if parts[n].encoded then "*" else ""
  }

  /** Only the first part names its character set. */
  function Content(parts: seq<Part>, n: nat): Text
    requires n < |parts|
  {
    if !parts[n].encoded then parts[n].text
    else (if n == 0 then EXTENDED else "") + Percent(parts[n].text)
  }

  function Shown(v: Text): Text { if IsToken(v) then v else "\"" + Quote(v) + "\"" }

  ghost predicate IsOrder(parts: seq<Part>, order: seq<nat>) {
    && (forall i :: 0 <= i < |order| ==> order[i] < |parts|)
    && (forall i, j :: 0 <= i < j < |order| ==> order[i] != order[j])
  }

  function Header(name: Text, parts: seq<Part>, order: seq<nat>): Text
    requires forall i :: 0 <= i < |order| ==> order[i] < |parts|
    decreases |order|
  {
    if order == [] then ""
    else
      var n := order[0];
      "; " + (Key(name, parts, n) + ("=" + (Shown(Content(parts, n)) + Header(name, parts, order[1..]))))
  }

  // ----- one part is read

  lemma {:induction false} DecimalIsToken(n: nat)
    ensures AllToken(Decimal(n)) && IsLower(Decimal(n)) && Decimal(n) != ""
  {
    if n >= 10 { DecimalIsToken(n / 10); }
  }

  lemma KeyIsToken(name: Text, parts: seq<Part>, n: nat)
    requires n < |parts| && GoodKey(name)
    ensures IsToken(Key(name, parts, n)) && LowerAscii(Key(name, parts, n)) == Key(name, parts, n)
    ensures var k := Key(name, parts, n); IndexFrom(k, '*', 0) == |name| < |k| && k[..|name|] == name
  {
    hide IsTokenChar, Decimal, IndexFrom;
    var k := Key(name, parts, n);
    DecimalIsToken(n);
    assert IsTokenChar('*') by { StarIsToken(); }
    IndexIs(k, '*', 0, |name|);
    assert IsLower(k);
    GoodKeyLower(k);
  }

  lemma StarIsToken()
    ensures IsTokenChar('*')
  {
  }

  lemma ContentIsPlain(parts: seq<Part>, n: nat)
    requires n < |parts| && PartOk(parts[n])
    ensures !NeedsEncoding(Content(parts, n))
  {
    if parts[n].encoded {
      hide Percent, IsTokenChar;
      PercentIsToken(parts[n].text);
      ExtendedIsToken(parts[n].text);
      var v := Content(parts, n);
      assert "" + Percent(parts[n].text) == Percent(parts[n].text);
      assert AllToken(v);
      TokenIsPlain(v);
    }
  }

  lemma ReadShown(v: Text, rest: Text)
    requires !NeedsEncoding(v) && AtSemicolon(rest)
    ensures ConsumeValue(Shown(v) + rest) == Taken(v, rest) && Shown(v) != "" && '!' <= Shown(v)[0] <= '~'
  {
    hide NeedsEncoding, ConsumeValue, Quote;
    if IsToken(v) { TokenValue(v, rest); } else { QuotedValue(v, rest); }
  }

  lemma ReadPart(lib: Lib, name: Text, parts: seq<Part>, order: seq<nat>)
    requires LibOk(lib) && GoodKey(name) && order != [] && forall i :: 0 <= i < |order| ==> order[i] < |parts|
    requires PartOk(parts[order[0]])
    ensures ConsumeMediaParam(lib, Header(name, parts, order)) ==
            MediaParam(Key(name, parts, order[0]), Content(parts, order[0]), Header(name, parts, order[1..]))
  {
    hide LibOk, Key, Content, ConsumeMediaParam, Shown, GoodKey, PartOk, NeedsEncoding;
    var n, rest := order[0], Header(name, parts, order[1..]);
    KeyIsToken(name, parts, n);
    ContentIsPlain(parts, n);
    ReadShown(Content(parts, n), rest);
    ParamIs(lib, Key(name, parts, n), Shown(Content(parts, n)) + rest, Content(parts, n), rest);
  }

  // ----- all parts are stored

  /** What the parser has put aside after the parts in order. */
  function PartMap(name: Text, parts: seq<Part>, order: seq<nat>): map<Text, Text>
    requires forall i :: 0 <= i < |order| ==> order[i] < |parts|
  {
    if order == [] then map[]
    else
      var n := order[|order| - 1];
      PartMap(name, parts, order[..|order| - 1])[Key(name, parts, n) := Content(parts, n)]
  }

  /** Part n is in m under its own name, and not under the other, exactly if it is there. */
  ghost predicate Stands(name: Text, parts: seq<Part>, m: map<Text, Text>, n: nat, there: bool)
    requires there ==> n < |parts|
  {
    var x := PartName(name, n);
    && (x in m <==> there && !parts[n].encoded) && (x in m ==> m[x] == Content(parts, n))
    && (x + "*" in m <==> there && parts[n].encoded) && (x + "*" in m ==> m[x + "*"] == Content(parts, n))
  }

  lemma AddPart(name: Text, parts: seq<Part>, m: map<Text, Text>, k: nat, n: nat, there: bool)
    requires k < |parts| && (there ==> n < |parts|) && Stands(name, parts, m, n, there)
    ensures Stands(name, parts, m[Key(name, parts, k) := Content(parts, k)], n, there || n == k)
  {
    hide PartName, Content;
    var x, y := PartName(name, n), PartName(name, k);
    assert |x + "*"| != |x| && y + "" == y;
    if n != k { PartNamesDiffer(name, n, k); }
  }

  lemma {:induction false} PartMapIs(name: Text, parts: seq<Part>, order: seq<nat>, n: nat)
    requires IsOrder(parts, order)
    ensures Stands(name, parts, PartMap(name, parts, order), n, n in order)
    ensures name + "*" !in PartMap(name, parts, order)
    decreases |order|
  {
    hide PartName, Content;
    if order != [] {
      hide Stands;
      var k, rest := order[|order| - 1], order[..|order| - 1];
      PartMapIs(name, parts, rest, n);
      LongerName(name, k);
      assert order == rest + [k] && (n in order <==> n in rest || n == k);
      AddPart(name, parts, PartMap(name, parts, rest), k, n, n in rest);
    }
  }

  lemma LongerName(name: Text, n: nat)
    ensures |PartName(name, n)| > |name + "*"|
  {
    hide Decimal;
    DecimalIsDigits(n);
  }

  function AccAt(name: Text, parts: seq<Part>, order: seq<nat>): Acc
    requires forall i :: 0 <= i < |order| ==> order[i] < |parts|
  {
    Acc(map[], if order == [] then map[] else map[name := PartMap(name, parts, order)])
  }

  lemma NewPart(name: Text, parts: seq<Part>, order: seq<nat>, n: nat)
    requires IsOrder(parts, order) && n < |parts| && n !in order
    ensures IsOrder(parts, order + [n]) && Key(name, parts, n) !in PartMap(name, parts, order)
    ensures PartMap(name, parts, order + [n]) == PartMap(name, parts, order)[Key(name, parts, n) := Content(parts, n)]
  {
    hide Content, PartName;
    var more := order + [n];
    assert more[..|more| - 1] == order;
    PartMapIs(name, parts, order, n);
    assert PartName(name, n) + "" == PartName(name, n);
  }

  lemma StorePart(name: Text, parts: seq<Part>, order: seq<nat>, n: nat)
    requires GoodKey(name) && IsOrder(parts, order) && n < |parts| && n !in order
    ensures IsOrder(parts, order + [n])
    ensures Store(AccAt(name, parts, order), Key(name, parts, n), Content(parts, n)) ==
        Some(AccAt(name, parts, order + [n]))
  {
    hide Content, Key, GoodKey, IndexFrom, PartMap;
    NewPart(name, parts, order, n);
    KeyIsToken(name, parts, n);
    if order == [] {
      assert PartMap(name, parts, []) == map[] by { NoPartsYet(name, parts); }
    } else {
      var m, all := PartMap(name, parts, order), PartMap(name, parts, order + [n]);
      assert map[name := m][name := all] == map[name := all];
    }
  }

  lemma ParsePart(lib: Lib, name: Text, parts: seq<Part>, before: seq<nat>, order: seq<nat>)
    requires LibOk(lib) && GoodKey(name) && order != [] && IsOrder(parts, order) && IsOrder(parts, before)
    requires order[0] !in before && PartOk(parts[order[0]])
    ensures IsOrder(parts, before + [order[0]])
    ensures ParseParams(lib, Header(name, parts, order), AccAt(name, parts, before)) ==
            ParseParams(lib, Header(name, parts, order[1..]), AccAt(name, parts, before + [order[0]]))
  {
    hide LibOk, Key, Content, GoodKey, PartOk, Store, ConsumeMediaParam, AccAt;
    var n, v := order[0], Header(name, parts, order);
    ReadPart(lib, name, parts, order);
    StorePart(name, parts, before, n);
    NoSpace(lib, v);
    KeyIsToken(name, parts, n);
    ParseStep(lib, v, AccAt(name, parts, before), Key(name, parts, n), Content(parts, n),
              Header(name, parts, order[1..]), AccAt(name, parts, before + [n]));
  }

  lemma {:induction false} ParseParts(lib: Lib, name: Text, parts: seq<Part>, before: seq<nat>, order: seq<nat>)
    requires LibOk(lib) && GoodKey(name) && IsOrder(parts, before + order) && IsOrder(parts, order)
        && IsOrder(parts, before)
    requires forall n :: 0 <= n < |parts| ==> PartOk(parts[n])
    ensures ParseParams(lib, Header(name, parts, order), AccAt(name, parts, before)) ==
        Stored(AccAt(name, parts, before + order))
    decreases |order|
  {
    hide LibOk, GoodKey, PartOk, AccAt, ParseParams;
    if order == [] {
      ParseNone(lib, AccAt(name, parts, before));
      assert before + order == before;
    } else {
      hide Header;
      Split(parts, before, order);
      assert (before + [order[0]]) + order[1..] == before + order;
      ParsePart(lib, name, parts, before, order);
      ParseParts(lib, name, parts, before + [order[0]], order[1..]);
    }
  }

  lemma Split(parts: seq<Part>, before: seq<nat>, order: seq<nat>)
    requires IsOrder(parts, before + order) && order != []
    ensures order[0] !in before
  {
    var all := before + order;
    assert forall i :: 0 <= i < |before| ==> all[i] == before[i];
    assert all[|before|] == order[0];
  }

  // ----- and joined

  /** The text a part adds to the value. */
  lemma PartText(lib: Lib, parts: seq<Part>, n: nat)
    requires LibOk(lib) && n < |parts| && PartOk(parts[n]) && parts[n].encoded
    ensures (if n == 0 then Decode2231(lib, Content(parts, n)) else PercentUnescape(Content(parts, n))) ==
        Some(parts[n].text)
  {
    hide Percent, Decode2231, PercentUnescape, LibOk, EXTENDED;
    var t := parts[n].text;
    assert "" + Percent(t) == Percent(t);
    if n == 0 { ExtendedValue(lib, t); } else { PercentRoundTrip(t); }
  }

  ghost predicate InPlace(name: Text, parts: seq<Part>, m: map<Text, Text>, n: nat) {
    Stands(name, parts, m, n, n < |parts|)
  }

  /** Every part is in m, and no other. */
  ghost predicate Complete(name: Text, parts: seq<Part>, m: map<Text, Text>) {
    forall n: nat :: InPlace(name, parts, m, n)
  }

  lemma {:induction false} JoinFrom(lib: Lib, name: Text, parts: seq<Part>, m: map<Text, Text>,
                                    left: map<Text, Text>, n: nat, buf: Text)
    requires LibOk(lib) && n <= |parts| && Left(name, m, left, n)
    requires forall k :: 0 <= k < |parts| ==> PartOk(parts[k])
    requires Complete(name, parts, m)
    ensures Join(lib, name, left, n, buf, n > 0) == if parts == [] then None else Some(buf + Whole(parts, n))
    decreases |parts| - n
  {
    hide PartName, Content, PartOk, LibOk, Decode2231, PercentUnescape;
    var x := PartName(name, n);
    assert Same(m, left, x) && Same(m, left, x + "*");
    assert InPlace(name, parts, m, n);
    if n < |parts| {
      var key := if parts[n].encoded then x + "*" else x;
      if parts[n].encoded { PartText(lib, parts, n); } else { PlainContent(parts, n); }
      DropPart(name, m, left, n, key);
      JoinFrom(lib, name, parts, m, left - {key}, n + 1, buf + parts[n].text);
      Cat(buf, parts[n].text, Whole(parts, n + 1));
    } else {
      assert buf + "" == buf;
    }
  }

  lemma PlainContent(parts: seq<Part>, n: nat)
    requires n < |parts| && !parts[n].encoded
    ensures Content(parts, n) == parts[n].text
  {
  }

  lemma LeftAll(name: Text, m: map<Text, Text>)
    ensures Left(name, m, m, 0)
  {
  }

  lemma PartsAreComplete(name: Text, parts: seq<Part>, order: seq<nat>)
    requires IsOrder(parts, order) && forall n :: 0 <= n < |parts| ==> n in order
    ensures Complete(name, parts, PartMap(name, parts, order)) && name + "*" !in PartMap(name, parts, order)
  {
    hide Stands, PartMap;
    var m := PartMap(name, parts, order);
    forall k: nat ensures InPlace(name, parts, m, k) {
      PartMapIs(name, parts, order, k);
      assert k in order <==> k < |parts|;
    }
    PartMapIs(name, parts, order, 0);
  }

  lemma OnePart(lib: Lib, name: Text, m: map<Text, Text>, value: Text)
    requires PartsValue(lib, name, m) == Some(value)
    ensures Assemble(lib, Acc(map[], map[name := m])) == map[name := value]
  {
    hide PartsValue;
  }

  lemma PartsAssemble(lib: Lib, name: Text, parts: seq<Part>, order: seq<nat>)
    requires LibOk(lib) && parts != [] && IsOrder(parts, order)
    requires forall n :: 0 <= n < |parts| ==> n in order && PartOk(parts[n])
    ensures Assemble(lib, AccAt(name, parts, order)) == map[name := Whole(parts, 0)]
  {
    hide PartOk, LibOk, Join, Whole, Left, Decode2231, Complete, PartMap, Assemble;
    assert order != [] by { assert 0 in order; }
    var m := PartMap(name, parts, order);
    PartsAreComplete(name, parts, order);
    LeftAll(name, m);
    JoinFrom(lib, name, parts, m, m, 0, "");
    assert "" + Whole(parts, 0) == Whole(parts, 0);
    OnePart(lib, name, m, Whole(parts, 0));
  }

  lemma NoPartsYet(name: Text, parts: seq<Part>)
    ensures PartMap(name, parts, []) == map[] && AccAt(name, parts, []) == Acc(map[], map[])
  {
  }

  /** What ParseMediaType does with a type that checks. */
  lemma ParsedAs(lib: Lib, t: Text, rest: Text, acc: Acc)
    requires LibOk(lib) && TypeOk(t) && AtSemicolon(rest) && ParseParams(lib, rest, Acc(map[], map[])) == Stored(acc)
    ensures ParseMediaType(lib, LowerAscii(t) + rest) == Parsed(LowerAscii(t), Assemble(lib, acc))
  {
    hide LibOk, TypeOk, Checked, IndexFrom, Assemble, ParseParams, LowerAscii;
    BaseIs(lib, t, rest);
    TypeChecks(t);
  }

  /** For any split of a value into parts, each of them plain, if it may be, or encoded, and
      for any order in which they are written. */
  lemma Continuations(lib: Lib, t: Text, name: Text, parts: seq<Part>, order: seq<nat>)
    requires LibOk(lib) && TypeOk(t) && GoodKey(name) && parts != [] && IsOrder(parts, order)
    requires forall n :: 0 <= n < |parts| ==> n in order && PartOk(parts[n])
    ensures ParseMediaType(lib, LowerAscii(t) + Header(name, parts, order)) ==
            Parsed(LowerAscii(t), map[name := Whole(parts, 0)])
  {
    hide LibOk, TypeOk, Assemble, ParseParams, ParseMediaType, AccAt, PartMap, LowerAscii, GoodKey, PartOk;
    NoPartsYet(name, parts);
    assert [] + order == order;
    ParseParts(lib, name, parts, [], order);
    PartsAssemble(lib, name, parts, order);
    ParsedAs(lib, t, Header(name, parts, order), AccAt(name, parts, order));
  }

  // ----- parts that FormatMediaType would not write

  predicate HasPart(name: Text, m: map<Text, Text>, n: nat) { PartName(name, n) in m || PartName(name, n) + "*" in m }

  /** A part given both ways counts as plain; an encoded one that cannot be decoded as empty. */
  function PartValue(lib: Lib, name: Text, m: map<Text, Text>, n: nat): Text
    requires HasPart(name, m, n)
  {
    if PartName(name, n) in m then m[PartName(name, n)]
    else
      var v := m[PartName(name, n) + "*"];
      var d := if n == 0 then Decode2231(lib, v) else PercentUnescape(v);
      if d.Some? then d.value else ""
  }

  function PartValues(lib: Lib, name: Text, m: map<Text, Text>, n: nat): Text
    requires forall k: nat :: k < n ==> HasPart(name, m, k)
  {
    if n == 0 then "" else PartValues(lib, name, m, n - 1) + PartValue(lib, name, m, n - 1)
  }

  lemma {:induction false} JoinUpTo(lib: Lib, name: Text, m: map<Text, Text>, left: map<Text, Text>, n: nat, last: nat)
    requires Left(name, m, left, n) && n <= last && !HasPart(name, m, last)
    requires forall k: nat :: k < last ==> HasPart(name, m, k)
    ensures Join(lib, name, left, n, PartValues(lib, name, m, n), n > 0) ==
            if last == 0 then None else Some(PartValues(lib, name, m, last))
    decreases last - n
  {
    hide PartName, Decode2231, PercentUnescape;
    var x := PartName(name, n);
    assert Same(m, left, x) && Same(m, left, x + "*");
    if n < last {
      assert HasPart(name, m, n);
      var key := if x in m then x else x + "*";
      DropPart(name, m, left, n, key);
      JoinUpTo(lib, name, m, left - {key}, n + 1, last);
    }
  }

  /** The first part that is missing ends the value, and without part 0 there is none. */
  lemma GapEnds(lib: Lib, name: Text, m: map<Text, Text>, last: nat)
    requires !HasPart(name, m, last) && name + "*" !in m && forall k: nat :: k < last ==> HasPart(name, m, k)
    ensures PartsValue(lib, name, m) == if last == 0 then None else Some(PartValues(lib, name, m, last))
  {
    hide PartName, Join;
    LeftAll(name, m);
    JoinUpTo(lib, name, m, m, 0, last);
  }
}
