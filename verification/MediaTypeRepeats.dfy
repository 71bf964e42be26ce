/** Headers in which a parameter name may be repeated, and what may follow the last
    parameter. */
module MediaTypeRepeats {

  import opened Common
  import opened Grammar
  import opened MediaType
  import opened MediaTypeRoundTrip
  import Laws = MediaTypeLaws

  datatype Given = Given(key: Text, value: Text)

  predicate GivenOk(g: Given) { GoodKey(g.key) && IsBytes(g.value) }

  /** After the last parameter: nothing, a semicolon, a name without an equals sign, or one
      with an equals sign and no value or a quoted string that does not end. */
  datatype Tail = Nothing | Semicolon | NameOnly(name: Text) | NoValue(name: Text, w: Text)

  function TailText(tail: Tail): Text {
    match tail
    case Nothing => ""
    case Semicolon => ";"
    case NameOnly(name) => ";" + name
    case NoValue(name, w) => ";" + (name + ("=" + w))
  }

  predicate TailOk(tail: Tail) {
    match tail
    case NameOnly(name) => IsToken(name)
    case NoValue(name, w) =>
      IsToken(name) && AllVisible(w) && (w != "" ==> w[0] == '"') && (forall i :: 0 < i < |w| ==> w[i] != '"')
    case _ => true
  }

  /** Nothing or a semicolon. */
  predicate IsQuiet(tail: Tail) { tail.Nothing? || tail.Semicolon? }

  /** The parameters one after the other, each in the form its value needs, and a tail. */
  function Header(gs: seq<Given>, tail: Tail): Text {
    if gs == [] then TailText(tail) else Piece(gs[0].key, gs[0].value) + Header(gs[1..], tail)
  }

  function IsExtended(g: Given): bool { NeedsEncoding(g.value) }

  /** Different values for one name, both of them extended or neither. */
  predicate Clash(a: Given, b: Given) { a.key == b.key && a.value != b.value && IsExtended(a) == IsExtended(b) }

  ghost predicate Clashes(gs: seq<Given>) { exists i, j :: 0 <= i < j < |gs| && Clash(gs[i], gs[j]) }

  ghost predicate Has(gs: seq<Given>, k: Text, extended: bool) {
    exists i :: 0 <= i < |gs| && gs[i].key == k && IsExtended(gs[i]) == extended
  }

  /** Every name given, with its extended value if it has one and its plain value if not. */
  ghost predicate ParamsOf(gs: seq<Given>, p: map<Text, Text>) {
    && (forall k :: k in p <==> Has(gs, k, true) || Has(gs, k, false))
    && (forall i :: 0 <= i < |gs| && gs[i].key in p && (IsExtended(gs[i]) || !Has(gs, gs[i].key, true)) ==>
          p[gs[i].key] == gs[i].value)
  }

  // ----- what has been stored

  predicate Kept(acc: Acc, g: Given) {
    if IsExtended(g) then g.key in acc.parts && acc.parts[g.key] == map[g.key + "*" := Raw(g.value)]
    else g.key in acc.params && acc.params[g.key] == g.value
  }

  ghost predicate Fits(gs: seq<Given>, acc: Acc) {
    && (forall i :: 0 <= i < |gs| ==> Kept(acc, gs[i]))
    && (forall k :: k in acc.params ==> Has(gs, k, false))
    && (forall k :: k in acc.parts ==> Has(gs, k, true))
  }

  lemma HasMore(gs: seq<Given>, g: Given, k: Text, extended: bool)
    ensures Has(gs + [g], k, extended) <==> Has(gs, k, extended) || (g.key == k && IsExtended(g) == extended)
  {
    hide IsExtended;
    var more := gs + [g];
    assert more[|gs|] == g;
    if Has(gs, k, extended) {
      var i :| 0 <= i < |gs| && gs[i].key == k && IsExtended(gs[i]) == extended;
      assert more[i] == gs[i];
    }
  }

  /** Extended values are written alike only if they are the same. */
  lemma RawDiffers(a: Text, b: Text)
    requires IsBytes(a) && IsBytes(b) && NeedsEncoding(a) && NeedsEncoding(b)
    ensures Raw(a) == Raw(b) <==> a == b
  {
    hide NeedsEncoding, Percent, PercentUnescape, IsBytes;
    PercentRoundTrip(a);
    PercentRoundTrip(b);
    assert Raw(a)[7..] == Percent(a) && Raw(b)[7..] == Percent(b);
  }

  lemma StarOf(g: Given)
    requires GivenOk(g)
    ensures var key := Name(g.key, g.value);
            IndexFrom(key, '*', 0) == |g.key| && key[..|g.key|] == g.key && (|key| > |g.key| <==> IsExtended(g))
    ensures Name(g.key, g.value) == g.key + if IsExtended(g) then "*" else ""
  {
    hide NeedsEncoding, IsToken, IsLower, IsBytes, IndexFrom;
    var key := Name(g.key, g.value);
    IndexIs(key, '*', 0, |g.key|);
    assert key[..|g.key|] == g.key;
  }

  ghost predicate ClashesWith(gs: seq<Given>, g: Given) { exists i :: 0 <= i < |gs| && Clash(gs[i], g) }

  lemma StorePlain(gs: seq<Given>, acc: Acc, g: Given)
    requires Fits(gs, acc) && !IsExtended(g)
    ensures if ClashesWith(gs, g) then g.key in acc.params && acc.params[g.key] != g.value
            else (g.key in acc.params ==> acc.params[g.key] == g.value) &&
                 Fits(gs + [g], acc.(params := acc.params[g.key := g.value]))
  {
    hide NeedsEncoding, Raw;
    var more := gs + [g];
    assert more[|gs|] == g;
    if g.key in acc.params {
      assert Has(gs, g.key, false);
      var i :| 0 <= i < |gs| && gs[i].key == g.key && IsExtended(gs[i]) == false;
      assert Kept(acc, gs[i]);
    }
    if !ClashesWith(gs, g) {
      var next := acc.(params := acc.params[g.key := g.value]);
      hide Clash;
      forall i | 0 <= i < |more| ensures Kept(next, more[i]) {
        if i < |gs| { assert Kept(acc, gs[i]); KeptStill(gs, acc, g, i); }
      }
      forall k | k in next.params ensures Has(more, k, false) { HasMore(gs, g, k, false); }
      forall k | k in next.parts ensures Has(more, k, true) { HasMore(gs, g, k, true); }
    } else {
      var i :| 0 <= i < |gs| && Clash(gs[i], g);
      assert Kept(acc, gs[i]);
    }
  }

  lemma KeptStill(gs: seq<Given>, acc: Acc, g: Given, i: nat)
    requires i < |gs| && Kept(acc, gs[i]) && !IsExtended(g) && !Clash(gs[i], g)
    ensures Kept(acc.(params := acc.params[g.key := g.value]), gs[i])
  {
    hide NeedsEncoding, Raw;
  }

  lemma StoreExtended(gs: seq<Given>, acc: Acc, g: Given)
    requires Fits(gs, acc) && IsExtended(g) && GivenOk(g) && forall i :: 0 <= i < |gs| ==> GivenOk(gs[i])
    ensures var kept := map[g.key + "*" := Raw(g.value)];
            if ClashesWith(gs, g) then
              g.key in acc.parts && g.key + "*" in acc.parts[g.key] && acc.parts[g.key][g.key + "*"] != Raw(g.value)
            else (g.key in acc.parts ==> acc.parts[g.key] == kept) &&
                 Fits(gs + [g], acc.(parts := acc.parts[g.key := kept]))
  {
    hide NeedsEncoding, Raw, IsBytes, GoodKey;
    var more, kept := gs + [g], map[g.key + "*" := Raw(g.value)];
    assert more[|gs|] == g;
    forall i | 0 <= i < |gs| && IsExtended(gs[i])
      ensures Raw(gs[i].value) == Raw(g.value) <==> gs[i].value == g.value
    {
      RawDiffers(gs[i].value, g.value);
    }
    if g.key in acc.parts {
      assert Has(gs, g.key, true);
      var i :| 0 <= i < |gs| && gs[i].key == g.key && IsExtended(gs[i]) == true;
      assert Kept(acc, gs[i]);
      assert !ClashesWith(gs, g) ==> !Clash(gs[i], g);
    }
    if !ClashesWith(gs, g) {
      var next := acc.(parts := acc.parts[g.key := kept]);
      forall i | 0 <= i < |more| ensures Kept(next, more[i]) {
        if i < |gs| { assert Kept(acc, gs[i]) && !Clash(gs[i], g); }
      }
      forall k | k in next.params ensures Has(more, k, false) { HasMore(gs, g, k, false); }
      forall k | k in next.parts ensures Has(more, k, true) { HasMore(gs, g, k, true); }
    } else {
      var i :| 0 <= i < |gs| && Clash(gs[i], g);
      assert Kept(acc, gs[i]);
    }
  }

  /** Storing one more fails exactly if it clashes with an earlier one. */
  lemma StoreNext(gs: seq<Given>, acc: Acc, g: Given)
    requires Fits(gs, acc) && GivenOk(g) && forall i :: 0 <= i < |gs| ==> GivenOk(gs[i])
    ensures var r := Store(acc, Name(g.key, g.value), Raw(g.value));
            if ClashesWith(gs, g) then r.None? else r.Some? && Fits(gs + [g], r.value)
  {
    hide NeedsEncoding, IsBytes, GoodKey, Fits, ClashesWith, Percent, EXTENDED, IndexFrom;
    StarOf(g);
    if IsExtended(g) {
      StoreExtended(gs, acc, g);
      var kept := map[g.key + "*" := Raw(g.value)];
      assert map[][g.key + "*" := Raw(g.value)] == kept && kept[g.key + "*" := Raw(g.value)] == kept;
    } else {
      StorePlain(gs, acc, g);
      assert g.key + "" == g.key && Raw(g.value) == g.value;
    }
  }

  // ----- the whole header

  lemma TrimNothing(lib: Lib)
    ensures TrimLeft(lib, "") == ""
  {
  }

  lemma NothingTaken()
    ensures ConsumeToken("") == Taken("", "")
  {
  }

  lemma NoName(lib: Lib, name: Text)
    requires LibOk(lib) && AllToken(name)
    ensures ConsumeMediaParam(lib, ";" + name) == MediaParam("", "", ";" + name)
  {
    hide LibOk, LowerAscii, IsTokenChar, TrimLeft, ConsumeToken;
    var v := ";" + name;
    NoSpace(lib, v);
    assert v[1..] == name;
    TrimNothing(lib);
    LowerToken(lib, name);
    if name == "" {
      NothingTaken();
    } else {
      TokenIsPlain(name);
      NoSpace(lib, name);
      TokenValue(name, "");
      assert name + "" == name;
    }
  }

  lemma NotAValue(w: Text)
    requires TailOk(NoValue("a", w))
    ensures ConsumeValue(w) == Taken("", w)
  {
    hide IsTokenChar;
    if w != "" { Laws.Unended(w, 1, ""); }
  }

  lemma EqualsIsNoToken(w: Text)
    ensures "=" + w != "" && ("=" + w)[0] == '=' && !IsTokenChar('=')
  {
  }

  lemma TailParts(name: Text, w: Text)
    requires TailOk(NoValue(name, w))
    ensures IsToken(name) && TailOk(NoValue("a", w)) && AllVisible(w)
  {
    assert IsTokenChar('a');
  }

  lemma NoneAfterEquals(lib: Lib, name: Text, w: Text)
    requires LibOk(lib) && TailOk(NoValue(name, w))
    ensures var v := TailText(NoValue(name, w)); ConsumeMediaParam(lib, v) == MediaParam("", "", v)
  {
    hide LibOk, LowerAscii, IsTokenChar, TrimLeft, ConsumeToken, ConsumeValue, TailOk;
    TailParts(name, w);
    var eq := "=" + w;
    var v1 := name + eq;
    var v := ";" + v1;
    NoSpace(lib, v);
    assert v[1..] == v1;
    EqualsIsNoToken(w);
    TokenIsPlain(name);
    assert v1[0] == name[0];
    NoSpace(lib, v1);
    TokenValue(name, eq);
    LowerToken(lib, name);
    NoSpace(lib, eq);
    assert eq[1..] == w;
    TrimNothing(lib);
    if w != "" { NoSpace(lib, w); }
    NotAValue(w);
  }

  lemma TailIs(lib: Lib, tail: Tail)
    requires LibOk(lib) && TailOk(tail)
    ensures var v := TailText(tail);
            && lib.trim(v) == v && TrimLeft(lib, v) == v && AtSemicolon(v)
            && (v == "" <==> tail.Nothing?) && (v == ";" <==> tail.Semicolon?)
  {
    hide LowerOk, SpacesOk, IsTokenChar;
    var v := TailText(tail);
    if tail.NameOnly? || tail.NoValue? { TokenIsPlain(tail.name); }
    assert AllVisible(v);
    if v == "" { TrimNothing(lib); } else { NoSpace(lib, v); }
  }

  lemma ParseTail(lib: Lib, tail: Tail, acc: Acc)
    requires LibOk(lib) && TailOk(tail)
    ensures ParseParams(lib, TailText(tail), acc) == if IsQuiet(tail) then Stored(acc) else BadParam
  {
    hide LibOk, IsTokenChar, ConsumeMediaParam, TrimLeft;
    TailIs(lib, tail);
    match tail
    case Nothing => ParseNone(lib, acc);
    case Semicolon => NoName(lib, ""); assert ";" + "" == ";";
    case NameOnly(name) => NoName(lib, name);
    case NoValue(name, w) => NoneAfterEquals(lib, name, w);
  }

  lemma HeaderStarts(gs: seq<Given>, tail: Tail)
    requires TailOk(tail)
    ensures AtSemicolon(Header(gs, tail)) && (gs != [] ==> Header(gs, tail) != "")
  {
    hide Value;
  }

  lemma NoMore(tail: Tail)
    ensures Header([], tail) == TailText(tail)
  {
  }

  lemma ReadFirst(lib: Lib, gs: seq<Given>, tail: Tail, acc: Acc)
    requires LibOk(lib) && TailOk(tail) && gs != [] && GivenOk(gs[0])
    ensures var r := Store(acc, Name(gs[0].key, gs[0].value), Raw(gs[0].value));
            ParseParams(lib, Header(gs, tail), acc) ==
            if r.None? then Duplicate else ParseParams(lib, Header(gs[1..], tail), r.value)
  {
    hide LibOk, Name, Raw, IsBytes, NeedsEncoding, Value, Store, ConsumeMediaParam, TrimLeft, IsLower, TailOk;
    var g, v, rest := gs[0], Header(gs, tail), Header(gs[1..], tail);
    HeaderStarts(gs[1..], tail);
    ReadParam(lib, g.key, g.value, rest);
    PieceIs(g.key, g.value, rest);
    NoSpace(lib, v);
    NameIs(g.key, g.value);
  }

  /** What becomes of gs after done has been stored. */
  lemma {:induction false} ParseGiven(lib: Lib, done: seq<Given>, gs: seq<Given>, tail: Tail, acc: Acc)
    requires LibOk(lib) && TailOk(tail) && Fits(done, acc)
    requires (forall i :: 0 <= i < |done| ==> GivenOk(done[i])) && forall i :: 0 <= i < |gs| ==> GivenOk(gs[i])
    ensures var r := ParseParams(lib, Header(gs, tail), acc);
            if ClashLater(done, gs) then r.Duplicate?
            else if !IsQuiet(tail) then r.BadParam? else r.Stored? && Fits(done + gs, r.acc)
    decreases |gs|
  {
    hide LibOk, Fits, GivenOk, ClashesWith, ParseParams, Header, TailOk, Store, Clash;
    if gs == [] {
      assert done + gs == done;
      NoMore(tail);
      ParseTail(lib, tail, acc);
    } else {
      ReadFirst(lib, gs, tail, acc);
      StoreNext(done, acc, gs[0]);
      if !ClashesWith(done, gs[0]) {
        var r := Store(acc, Name(gs[0].key, gs[0].value), Raw(gs[0].value));
        ParseGiven(lib, done + [gs[0]], gs[1..], tail, r.value);
        assert (done + [gs[0]]) + gs[1..] == done + gs;
      }
    }
  }

  /** One of gs clashes with one before it, or with one of done. */
  ghost predicate ClashLater(done: seq<Given>, gs: seq<Given>)
    decreases |gs|
  {
    gs != [] && (ClashesWith(done, gs[0]) || ClashLater(done + [gs[0]], gs[1..]))
  }

  lemma {:induction false} ClashLaterIs(done: seq<Given>, gs: seq<Given>)
    ensures ClashLater(done, gs) <==> exists j :: 0 <= j < |gs| && ClashesWith(done + gs[..j], gs[j])
    decreases |gs|
  {
    hide ClashesWith;
    if gs != [] {
      var d, rest := done + [gs[0]], gs[1..];
      ClashLaterIs(d, rest);
      assert done + gs[..0] == done;
      forall j | 0 <= j < |rest|
        ensures rest[j] == gs[j + 1] && d + rest[..j] == done + gs[..j + 1]
      {
        assert gs[..j + 1] == [gs[0]] + rest[..j];
      }
      if exists j :: 0 <= j < |gs| && ClashesWith(done + gs[..j], gs[j]) {
        var j :| 0 <= j < |gs| && ClashesWith(done + gs[..j], gs[j]);
        if j > 0 { assert ClashesWith(d + rest[..j - 1], rest[j - 1]); }
      }
      if exists j :: 0 <= j < |rest| && ClashesWith(d + rest[..j], rest[j]) {
        var j :| 0 <= j < |rest| && ClashesWith(d + rest[..j], rest[j]);
        assert ClashesWith(done + gs[..j + 1], gs[j + 1]);
      }
    }
  }

  lemma ClashesAre(gs: seq<Given>)
    ensures Clashes(gs) <==> ClashLater([], gs)
  {
    hide Clash;
    ClashLaterIs([], gs);
    forall j | 0 <= j < |gs|
      ensures ClashesWith([] + gs[..j], gs[j]) <==> exists i :: 0 <= i < j && Clash(gs[i], gs[j])
    {
      assert [] + gs[..j] == gs[..j];
      if exists i :: 0 <= i < j && Clash(gs[i], gs[j]) {
        var i :| 0 <= i < j && Clash(gs[i], gs[j]);
        assert gs[..j][i] == gs[i];
      }
    }
  }

  lemma AssembleGiven(lib: Lib, gs: seq<Given>, acc: Acc)
    requires LibOk(lib) && Fits(gs, acc) && forall i :: 0 <= i < |gs| ==> GivenOk(gs[i])
    ensures ParamsOf(gs, Assemble(lib, acc))
  {
    hide LibOk, NeedsEncoding, PartsValue, EXTENDED, Percent, GoodKey, IsBytes;
    forall i | 0 <= i < |gs| && IsExtended(gs[i])
      ensures gs[i].key in acc.parts && PartsValue(lib, gs[i].key, acc.parts[gs[i].key]) == Some(gs[i].value)
    {
      assert Kept(acc, gs[i]);
      PartOne(lib, gs[i].key, gs[i].value);
    }
    forall k | k in acc.parts ensures PartsValue(lib, k, acc.parts[k]).Some? {
      assert Has(gs, k, true);
    }
    var p := Assemble(lib, acc);
    forall k ensures k in p <==> Has(gs, k, true) || Has(gs, k, false) {
    }
    forall i | 0 <= i < |gs| && (IsExtended(gs[i]) || !Has(gs, gs[i].key, true)) ensures p[gs[i].key] == gs[i].value {
      assert Kept(acc, gs[i]);
    }
  }

  /** A name may be repeated with the same value, or once extended and once plain; the
      extended value is taken.  Any other repetition is an error, and so is a name without
      a value at the end; a semicolon there is not. */
  lemma Repeats(lib: Lib, t: Text, gs: seq<Given>, tail: Tail)
    requires LibOk(lib) && TypeOk(t) && TailOk(tail) && forall i :: 0 <= i < |gs| ==> GivenOk(gs[i])
    ensures var r := ParseMediaType(lib, LowerAscii(t) + Header(gs, tail));
            if Clashes(gs) then r == DuplicateName
            else if !IsQuiet(tail) then r == InvalidParameter(LowerAscii(t))
            else r.Parsed? && r.mediatype == LowerAscii(t) && ParamsOf(gs, r.params)
  {
    hide LibOk, TypeOk, Checked, IndexFrom, Assemble, ParseParams, LowerAscii, Clashes, ClashLater, ParamsOf;
    hide Header, TailOk, GivenOk;
    HeaderStarts(gs, tail);
    BaseIs(lib, t, Header(gs, tail));
    TypeChecks(t);
    var none := Acc(map[], map[]);
    ParseGiven(lib, [], gs, tail, none);
    ClashesAre(gs);
    assert [] + gs == gs;
    var r := ParseParams(lib, Header(gs, tail), none);
    if r.Stored? { AssembleGiven(lib, gs, r.acc); }
  }
}
