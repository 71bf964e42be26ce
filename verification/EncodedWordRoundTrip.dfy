/** DecodeHeader, and that it undoes the Q encoding. */
module EncodedWordRoundTrip {

  import opened Common
  import opened Grammar
  import opened EncodedWord

  /** What is not modelled: base64, and the character sets other than UTF-8. */
  datatype Lib = Lib(base64: Text -> Option<Text>, convert: (Text, Text) -> Option<Text>)

  /** strings.Index of two characters, from i; |s| if they do not occur. */
  function Index2(s: Text, a: char, b: char, i: nat): (r: nat)
    requires i <= |s|
    ensures i <= r <= |s| && (r < |s| ==> r + 1 < |s| && s[r] == a && s[r + 1] == b)
    ensures forall k :: i <= k < r && k + 1 < |s| ==> !(s[k] == a && s[k + 1] == b)
    decreases |s| - i
  {
    if i + 1 >= |s| then |s|
    else if s[i] == a && s[i + 1] == b then i
    else Index2(s, a, b, i + 1)
  }

  lemma Index2Is(s: Text, a: char, b: char, i: nat, k: nat)
    requires i <= k && k + 1 < |s| && s[k] == a && s[k + 1] == b
    requires forall j :: i <= j < k ==> !(s[j] == a && s[j + 1] == b)
    ensures Index2(s, a, b, i) == k
  {
  }

  function QDecode(s: Text): Option<Text> {
    if s == "" then Some("")
    else
      var c := s[0];
      if c == '=' then
        if |s| < 3 || !IsHex(s[1]) || !IsHex(s[2]) then None
        else var r := QDecode(s[3..]); if r.Some? then Some([FromHex(s[1], s[2])] + r.value) else None
      else if c == '_' || ' ' <= c <= '~' || c == '\n' || c == '\r' || c == '\t' then
        var r := QDecode(s[1..]); if r.Some? then Some([if c == '_' then ' ' else c] + r.value) else None
      else None
  }

  method QDecodeWord(s: Text) returns (r: Option<Text>)
    ensures r == QDecode(s)
  {
    var dec := new char[|s|];
    var n: nat := 0;
    var i: nat := 0;
    assert s[0..] == s && dec[..n] == "";
    ThenNothing(QDecode(s));
    while i < |s|
      invariant n <= i <= |s|
      invariant QDecode(s) == Then(dec[..n], QDecode(s[i..]))
    {
      var c := s[i];
      ghost var was := dec[..n];
      if c == '_' {
        dec[n] := ' ';
        assert s[i..][1..] == s[i + 1..];
      } else if c == '=' {
        if i + 2 >= |s| || !IsHex(s[i + 1]) || !IsHex(s[i + 2]) { return None; }
        dec[n] := FromHex(s[i + 1], s[i + 2]);
        assert s[i..][3..] == s[i + 3..];
        i := i + 2;
      } else if ' ' <= c <= '~' || c == '\n' || c == '\r' || c == '\t' {
        dec[n] := c;
        assert s[i..][1..] == s[i + 1..];
      } else {
        return None;
      }
      assert dec[..n + 1] == was + [dec[n]];
      ThenOne(was, dec[n], QDecode(s[i + 1..]));
      n := n + 1;
      i := i + 1;
    }
    assert s[i..] == "" && dec[..n] + "" == dec[..n];
    return Some(dec[..n]);
  }

  function Then(a: Text, r: Option<Text>): Option<Text> { if r.Some? then Some(a + r.value) else None }

  lemma ThenNothing(r: Option<Text>)
    ensures Then("", r) == r
  {
    if r.Some? { assert "" + r.value == r.value; }
  }

  lemma ThenOne(a: Text, c: char, r: Option<Text>)
    ensures Then(a + [c], r) == Then(a, Then([c], r))
  {
    if r.Some? { Cat(a, [c], r.value); }
  }

  function Decode(lib: Lib, encoding: char, text: Text): Option<Text> {
    if encoding == 'B' || encoding == 'b' then lib.base64(text)
    else if encoding == 'Q' || encoding == 'q' then QDecode(text)
    else None
  }

  function Convert(lib: Lib, charset: Text, content: Text): Option<Text> {
    if IsUTF8(charset) then Some(content) else lib.convert(charset, content)
  }

  predicate HasNonWhitespace(s: Text) { exists i :: 0 <= i < |s| && s[i] !in " \t\n\r" }

  /** One encoded-word found in a header: where it starts and ends, and its parts. */
  datatype Found = Found(start: nat, charset: Text, encoding: char, text: Text, end: nat)

  /** The first thing shaped like an encoded-word. */
  function Find(header: Text): (r: Option<Found>)
    ensures r.Some? ==> r.value.start + 2 <= r.value.end <= |header|
  {
    var start := Index2(header, '=', '?', 0);
    if start == |header| then None
    else
      var i := IndexFrom(header, '?', start + 2);
      if i == |header| || |header| < i + 5 || header[i + 2] != '?' then None
      else
        var j := Index2(header, '?', '=', i + 3);
        if j == |header| then None
        else Some(Found(start, header[start + 2..i], header[i + 1], header[i + 3..j], j + 2))
  }

  /** The rest of the header decoded; None is an error of Convert. */
  function Scan(lib: Lib, header: Text, betweenWords: bool): Option<Text>
    decreases |header|
  {
    var f := Find(header);
    if f.None? then Some(header)
    else
      var w := f.value;
      var content := Decode(lib, w.encoding, w.text);
      if content.None? then Then(header[..w.start + 2], Scan(lib, header[w.start + 2..], false))
      else
        var shown := w.start > 0 && (!betweenWords || HasNonWhitespace(header[..w.start]));
        var before := if shown then header[..w.start] else "";
        var c := Convert(lib, w.charset, content.value);
        if c.None? then None else Then(before + c.value, Scan(lib, header[w.end..], true))
  }

  function DecodeHeader(lib: Lib, header: Text): Option<Text> {
    var i := Index2(header, '=', '?', 0);
    if i == |header| then Some(header) else Then(header[..i], Scan(lib, header[i..], false))
  }

  method DecodeHeaderLoop(lib: Lib, header0: Text) returns (r: Option<Text>)
    ensures r == DecodeHeader(lib, header0)
  {
    hide Find, Decode, Convert, HasNonWhitespace;
    var i := Index2(header0, '=', '?', 0);
    if i == |header0| { return Some(header0); }
    var buf := header0[..i];
    var header := header0[i..];
    var betweenWords := false;
    while true
      invariant Then(buf, Scan(lib, header, betweenWords)) == DecodeHeader(lib, header0)
      decreases |header|
    {
      var f := Find(header);
      if f.None? { break; }
      var w := f.value;
      var content := Decode(lib, w.encoding, w.text);
      if content.None? {
        ThenMore(buf, header[..w.start + 2], Scan(lib, header[w.start + 2..], false));
        betweenWords := false;
        buf := buf + header[..w.start + 2];
        header := header[w.start + 2..];
        continue;
      }
      var c := Convert(lib, w.charset, content.value);
      ghost var shown := w.start > 0 && (!betweenWords || HasNonWhitespace(header[..w.start]));
      ghost var before := if shown then header[..w.start] else "";
      ghost var buf0 := buf;
      if w.start > 0 && (!betweenWords || HasNonWhitespace(header[..w.start])) {
        buf := buf + header[..w.start];
      }
      if c.None? { return None; }
      buf := buf + c.value;
      assert buf == buf0 + (before + c.value);
      ThenMore(buf0, before + c.value, Scan(lib, header[w.end..], true));
      header := header[w.end..];
      betweenWords := true;
    }
    return Some(buf + header);
  }

  lemma ThenMore(a: Text, b: Text, r: Option<Text>)
    ensures Then(a + b, r) == Then(a, Then(b, r))
  {
    if r.Some? { Cat(a, b, r.value); }
  }

  // ----- the round trip

  lemma QDecodeNone()
    ensures QDecode("") == Some("") && QString("") == ""
  {
  }

  lemma QDecodeChar(c: char, t: Text)
    requires c as int < 256
    ensures QDecode(QChar(c) + t) == Then([c], QDecode(t)) && '?' !in QChar(c)
  {
    var q := QChar(c);
    HexRoundTrip(c);
    assert (q + t)[|q|..] == t;
  }

  lemma {:induction false} QRoundTrip(s: Text)
    requires IsBytes(s)
    ensures QDecode(QString(s)) == Some(s) && '?' !in QString(s)
  {
    hide QDecode, QChar;
    if s == "" {
      QDecodeNone();
    } else {
      EachCons(QChar, s);
      QRoundTrip(s[1..]);
      QDecodeChar(s[0], QString(s[1..]));
      assert s == [s[0]] + s[1..];
    }
  }

  lemma FindAt(h: Text, n: nat, i: nat, j: nat)
    requires n + 2 <= i && i + 3 <= j && j + 1 < |h|
    requires h[n] == '=' && h[n + 1] == '?' && forall k :: 0 <= k < n ==> h[k] != '='
    requires (forall k :: n + 2 <= k < i ==> h[k] != '?') && h[i] == '?' && h[i + 2] == '?'
    requires (forall k :: i + 3 <= k < j ==> h[k] != '?') && h[j] == '?' && h[j + 1] == '='
    ensures Find(h) == Some(Found(n, h[n + 2..i], h[i + 1], h[i + 3..j], j + 2))
  {
    hide Index2, IndexFrom;
    Index2Is(h, '=', '?', 0, n);
    IndexIs(h, '?', n + 2, i);
    Index2Is(h, '?', '=', i + 3, j);
  }

  lemma NotIn(h: Text, a: nat, b: nat, c: char)
    requires a <= b <= |h| && c !in h[a..b]
    ensures forall k :: a <= k < b ==> h[k] != c
  {
    assert forall k :: a <= k < b ==> h[k] == h[a..b][k - a];
  }

  /** Where the parts of an encoded-word lie. */
  lemma Layout(pre: Text, charset: Text, q: Text, rest: Text)
    ensures var h := (pre + ("=?" + charset + "?q?" + (q + "?="))) + rest;
            var n := |pre|;
            var i := n + 2 + |charset|;
            var j := i + 3 + |q|;
            && j + 1 < |h| && h[..n] == pre && h[n] == '=' && h[n + 1] == '?' && h[n + 2..i] == charset
            && h[i] == '?' && h[i + 1] == 'q' && h[i + 2] == '?' && h[i + 3..j] == q
            && h[j] == '?' && h[j + 1] == '=' && h[j + 2..] == rest
  {
    var t := (q + "?=") + rest;
    var u := (charset + "?q?") + t;
    var h := (pre + ("=?" + charset + "?q?" + (q + "?="))) + rest;
    Flatten(pre, charset, q + "?=", rest);
    Three(pre, "=?", u);
    Three(charset, "?q?", t);
    Three(q, "?=", rest);
    var n := |pre|;
    var i := n + 2 + |charset|;
    SubSlice(h, n + 2, 0, |charset|);
    SubSlice(h, n + 2, |charset| + 3, |u|);
    SubSlice(h, i + 3, 0, |q|);
    SubSlice(h, i + 3, |q| + 2, |t|);
  }

  lemma Flatten(pre: Text, charset: Text, w: Text, rest: Text)
    ensures (pre + ("=?" + charset + "?q?" + w)) + rest == (pre + "=?") + ((charset + "?q?") + (w + rest))
  {
  }

  lemma Three(a: Text, b: Text, c: Text)
    ensures var h := (a + b) + c;
            h[..|a|] == a && h[|a|..|a| + |b|] == b && h[|a| + |b|..] == c && |h| == |a| + |b| + |c|
  {
  }

  lemma SubSlice(h: Text, a: nat, b: nat, c: nat)
    requires a <= |h| && b <= c <= |h| - a
    ensures h[a..][b..c] == h[a + b..a + c]
  {
  }

  /** Find on an encoded-word, with nothing or one space before it. */
  lemma FindWord(charset: Text, s: Text, rest: Text, pre: Text)
    requires IsUTF8(charset) && IsBytes(s) && pre in {"", " "}
    ensures var w := Word(charset, s);
            var h := (pre + w) + rest;
            && Find(h) == Some(Found(|pre|, charset, 'q', QString(s), |pre| + |w|))
            && h[..|pre|] == pre && h[|pre| + |w|..] == rest
  {
    hide IsUTF8, IsBytes, QString, Find;
    var n := |pre|;
    var q := QString(s);
    QRoundTrip(s);
    NoQuestion(charset);
    Layout(pre, charset, q, rest);
    var i := n + 2 + |charset|;
    var h := (pre + Word(charset, s)) + rest;
    assert forall k :: 0 <= k < n ==> h[k] == pre[k];
    NotIn(h, n + 2, i, '?');
    NotIn(h, i + 3, i + 3 + |q|, '?');
    FindAt(h, n, i, i + 3 + |q|);
  }

  lemma NoQuestion(charset: Text)
    requires IsUTF8(charset)
    ensures '?' !in charset
  {
    assert forall k :: 0 <= k < |charset| ==> LowerAscii(charset)[k] == LowerChar(charset[k]);
    assert '?' !in "utf-8";
  }

  lemma ConvertUTF8(lib: Lib, charset: Text, content: Text)
    requires IsUTF8(charset)
    ensures Convert(lib, charset, content) == Some(content)
  {
  }

  lemma ScanNone(lib: Lib)
    ensures Scan(lib, "", true) == Some("")
  {
  }

  /** Scan takes one encoded-word off, and the space that set it apart. */
  lemma ScanWord(lib: Lib, charset: Text, s: Text, rest: Text, pre: Text)
    requires IsUTF8(charset) && IsBytes(s) && pre in {"", " "}
    ensures Scan(lib, (pre + Word(charset, s)) + rest, pre == " ") == Then(s, Scan(lib, rest, true))
  {
    hide Find, IsUTF8, IsBytes, Word, QString, QDecode;
    FindWord(charset, s, rest, pre);
    QRoundTrip(s);
    var h := (pre + Word(charset, s)) + rest;
    assert pre == " " ==> !HasNonWhitespace(pre);
    assert "" + s == s;
    ConvertUTF8(lib, charset, s);
    assert Scan(lib, h, pre == " ") == Then("" + s, Scan(lib, rest, true));
  }

  /** All encoded-words after the first, each behind its space. */
  function Tail(charset: Text, pieces: seq<Text>): Text {
    if pieces == [] then "" else (" " + Word(charset, pieces[0])) + Tail(charset, pieces[1..])
  }

  function Concat(pieces: seq<Text>): Text { if pieces == [] then "" else pieces[0] + Concat(pieces[1..]) }

  lemma {:induction false} ScanTail(lib: Lib, charset: Text, pieces: seq<Text>)
    requires IsUTF8(charset) && forall k :: 0 <= k < |pieces| ==> IsBytes(pieces[k])
    ensures Scan(lib, Tail(charset, pieces), true) == Some(Concat(pieces))
  {
    hide Scan, IsUTF8, IsBytes, Word;
    if pieces == [] {
      ScanNone(lib);
    } else {
      ScanWord(lib, charset, pieces[0], Tail(charset, pieces[1..]), " ");
      ScanTail(lib, charset, pieces[1..]);
    }
  }

  lemma {:induction false} WordsTail(charset: Text, first: Text, more: seq<Text>)
    ensures Words(charset, [first] + more) == Word(charset, first) + Tail(charset, more)
    decreases |more|
  {
    hide Word;
    var all := [first] + more;
    if more == [] {
      assert all == [first] && Word(charset, first) + "" == Word(charset, first);
    } else {
      var n := |more| - 1;
      assert all[..|all| - 1] == [first] + more[..n];
      WordsTail(charset, first, more[..n]);
      TailSnoc(charset, more[..n], more[n]);
      assert more[..n] + [more[n]] == more;
      Cat(Word(charset, first), Tail(charset, more[..n]), " " + Word(charset, more[n]));
    }
  }

  lemma {:induction false} TailSnoc(charset: Text, a: seq<Text>, x: Text)
    ensures Tail(charset, a + [x]) == Tail(charset, a) + (" " + Word(charset, x))
  {
    hide Word;
    if a == [] {
      assert Tail(charset, [x][1..]) == "";
      assert (" " + Word(charset, x)) + "" == "" + (" " + Word(charset, x));
      assert a + [x] == [x];
    } else {
      assert (a + [x])[1..] == a[1..] + [x];
      TailSnoc(charset, a[1..], x);
      Cat(" " + Word(charset, a[0]), Tail(charset, a[1..]), " " + Word(charset, x));
    }
  }

  lemma {:induction false} WholeIsConcat(first: Text, more: seq<Text>)
    ensures Whole([first] + more) == first + Concat(more)
    decreases |more|
  {
    var all := [first] + more;
    if more == [] {
      assert all == [first] && Whole(all[..0]) == "" && first + "" == first;
    } else {
      var n := |more| - 1;
      assert all[..|all| - 1] == [first] + more[..n];
      WholeIsConcat(first, more[..n]);
      ConcatSnoc(more[..n], more[n]);
      assert more[..n] + [more[n]] == more;
      Cat(first, Concat(more[..n]), more[n]);
    }
  }

  lemma {:induction false} ConcatSnoc(a: seq<Text>, x: Text)
    ensures Concat(a + [x]) == Concat(a) + x
  {
    if a == [] {
      assert a + [x] == [x] && Concat([x][1..]) == "";
    } else {
      assert (a + [x])[1..] == a[1..] + [x];
      ConcatSnoc(a[1..], x);
      Cat(a[0], Concat(a[1..]), x);
    }
  }

  /** Decoding the Q-encoded form, however it was cut into words, gives the text back. */
  lemma RoundTrip(lib: Lib, charset: Text, pieces: seq<Text>)
    requires IsUTF8(charset) && pieces != [] && forall k :: 0 <= k < |pieces| ==> IsBytes(pieces[k])
    ensures DecodeHeader(lib, Words(charset, pieces)) == Some(Whole(pieces))
  {
    hide Scan, IsUTF8, IsBytes, Word, Find, Words, Whole;
    var first, more := pieces[0], pieces[1..];
    assert pieces == [first] + more;
    WordsTail(charset, first, more);
    WholeIsConcat(first, more);
    var h := Words(charset, pieces);
    assert "" + Word(charset, first) == Word(charset, first);
    ScanWord(lib, charset, first, Tail(charset, more), "");
    ScanTail(lib, charset, more);
    FindWord(charset, first, Tail(charset, more), "");
    StartsAtOnce(h);
    assert h[0..] == h && h[..0] == "";
    ThenNothing(Scan(lib, h, false));
  }

  lemma StartsAtOnce(h: Text)
    requires Find(h).Some? && Find(h).value.start == 0
    ensures Index2(h, '=', '?', 0) == 0 < |h|
  {
  }

  /** DecodeHeader of what QEncodeWord wrote. */
  method EncodeThenDecode(lib: Lib, charset: Text, s: Text) returns (r: Option<Text>)
    requires IsUTF8(charset) && IsBytes(s)
    ensures r == Some(s)
  {
    hide IsUTF8, Words, DecodeHeader, IsBytes;
    var buf, pieces := QEncodeWord(charset, s);
    forall k | 0 <= k < |pieces| ensures IsBytes(pieces[k]) { PieceBytes(pieces, k); }
    RoundTrip(lib, charset, pieces);
    r := DecodeHeaderLoop(lib, buf);
  }

  lemma {:induction false} PieceBytes(pieces: seq<Text>, k: nat)
    requires k < |pieces| && IsBytes(Whole(pieces))
    ensures IsBytes(pieces[k])
    decreases |pieces|
  {
    var n := |pieces| - 1;
    var w := Whole(pieces[..n]);
    assert forall i :: 0 <= i < |w| ==> w[i] == Whole(pieces)[i];
    if k < n {
      PieceBytes(pieces[..n], k);
    } else {
      assert forall i :: 0 <= i < |pieces[k]| ==> pieces[k][i] == Whole(pieces)[|w| + i];
    }
  }
}
