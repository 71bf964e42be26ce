/** mime/encodedword.go: Q-encoded words and their decoding (RFC 2047). */
module EncodedWord {

  import opened Common
  import opened Grammar
  import Utf8

  const MAX_ENCODED_WORD_LEN := 75
  const MAX_CONTENT_LEN := 63      // less "=?UTF-8?q?" and "?="

  // ----- encoding

  predicate IsQPlain(c: char) { '!' <= c <= '~' && c != '=' && c != '?' && c != '_' }

  /** writeQString, for one byte. */
  function QChar(c: char): Text {
    if c == ' ' then "_" else if IsQPlain(c) then [c] else ['=', High(c), Low(c)]
  }

  function QString(s: Text): Text { Each(QChar, s) }

  /** strings.EqualFold(charset, "UTF-8"): none of its letters has a non-ASCII fold. */
  predicate IsUTF8(charset: Text) { LowerAscii(charset) == "utf-8" }

  function Open(charset: Text): Text { "=?" + charset + "?q?" }

  function Word(charset: Text, s: Text): Text { Open(charset) + (QString(s) + "?=") }

  /** Encoded-words, a space between each and the next. */
  function Words(charset: Text, pieces: seq<Text>): Text {
    if pieces == [] then ""
    else if |pieces| == 1 then Word(charset, pieces[0])
    else Words(charset, pieces[..|pieces| - 1]) + (" " + Word(charset, pieces[|pieces| - 1]))
  }

  function Whole(pieces: seq<Text>): Text {
    if pieces == [] then "" else Whole(pieces[..|pieces| - 1]) + pieces[|pieces| - 1]
  }

  function Bytes(s: Text): seq<Byte> { seq(|s|, i requires 0 <= i < |s| => s[i] as int % 256) }

  /** Width of the character at i. */
  function RuneLen(s: Text, i: nat): (n: nat)
    requires i < |s|
    ensures 1 <= n <= 4 && i + n <= |s|
  {
    Utf8.Decode(Bytes(s[i..])).n
  }

  /** i is where a character begins or s ends, decoding from `from`. */
  ghost predicate Boundary(s: Text, from: nat, i: nat)
    requires from <= |s|
    decreases |s| - from
  {
    from == i || (from < i && from < |s| && Boundary(s, from + RuneLen(s, from), i))
  }

  lemma {:induction false} BoundaryNext(s: Text, from: nat, i: nat)
    requires from <= |s| && i < |s| && Boundary(s, from, i)
    ensures Boundary(s, from, i + RuneLen(s, i))
    decreases |s| - from
  {
    hide RuneLen;
    if from < i { BoundaryNext(s, from + RuneLen(s, from), i); }
  }

  /** The pieces are short, and cut s between characters. */
  ghost predicate CutWell(s: Text, pieces: seq<Text>) {
    && Whole(pieces) == s
    && (forall k :: 0 <= k < |pieces| ==> |QString(pieces[k])| <= MAX_CONTENT_LEN)
    && (forall k :: 0 <= k <= |pieces| ==> Boundary(s, 0, |Whole(pieces[..k])|))
  }

  /** Piece k would have been too long with the next character as well. */
  ghost predicate Full(s: Text, pieces: seq<Text>, k: nat)
    requires k < |pieces|
  {
    var at := |Whole(pieces[..k + 1])|;
    at < |s| && |QString(pieces[k])| + |QString(s[at..at + RuneLen(s, at)])| > MAX_CONTENT_LEN
  }

  /** All pieces but the last. */
  ghost predicate NoneTooShort(s: Text, pieces: seq<Text>) {
    forall k :: 0 <= k < |pieces| - 1 ==> Full(s, pieces, k)
  }

  lemma MoreFull(s: Text, closed: seq<Text>, last: Text, next: Text)
    requires NoneTooShort(s, closed + [last]) && Full(s, closed + [last], |closed|)
    ensures NoneTooShort(s, (closed + [last]) + [next])
  {
    hide QString, Whole, RuneLen;
    var all, more := closed + [last], (closed + [last]) + [next];
    forall k | 0 <= k < |all| ensures Full(s, more, k) {
      assert Full(s, all, k) && more[..k + 1] == all[..k + 1];
    }
  }

  /** Only the last piece is longer. */
  lemma LastGrows(s: Text, closed: seq<Text>, cur: Text, more: Text)
    requires NoneTooShort(s, closed + [cur])
    ensures NoneTooShort(s, closed + [more])
  {
    hide QString, Whole, RuneLen;
    forall k | 0 <= k < |closed| ensures Full(s, closed + [more], k) {
      assert Full(s, closed + [cur], k) && (closed + [more])[..k + 1] == (closed + [cur])[..k + 1];
    }
  }

  lemma FullIf(s: Text, pieces: seq<Text>, k: nat, i: nat)
    requires k < |pieces| && i < |s| && |Whole(pieces[..k + 1])| == i
    requires |QString(pieces[k])| + |QString(s[i..i + RuneLen(s, i)])| > MAX_CONTENT_LEN
    ensures Full(s, pieces, k)
  {
    hide QString, Whole, RuneLen;
  }

  lemma CurIsFull(s: Text, closed: seq<Text>, cur: Text, i: nat)
    requires i < |s| && Whole(closed) + cur == s[..i]
    requires |QString(cur)| + |QString(s[i..i + RuneLen(s, i)])| > MAX_CONTENT_LEN
    ensures Full(s, closed + [cur], |closed|)
  {
    hide *;
    var all := closed + [cur];
    WholeLast(closed, cur);
    assert all[..|closed| + 1] == all && all[|closed|] == cur;
    assert |Whole(all[..|closed| + 1])| == i;
    FullIf(s, all, |closed|, i);
  }

  lemma SplitFull(s: Text, closed: seq<Text>, cur: Text, i: nat)
    requires i < |s| && Whole(closed) + cur == s[..i]
    requires |QString(cur)| + |QString(s[i..i + RuneLen(s, i)])| > MAX_CONTENT_LEN
    requires NoneTooShort(s, closed + [cur])
    ensures NoneTooShort(s, (closed + [cur]) + [""])
  {
    hide *;
    CurIsFull(s, closed, cur, i);
    MoreFull(s, closed, cur, "");
  }

  lemma OneIsFull(s: Text)
    ensures NoneTooShort(s, [] + [""])
  {
  }

  lemma NoContent(charset: Text)
    ensures QString("") == "" && Open(charset) == "=?" + charset + "?" + "q" + "?"
  {
  }

  /** What is in the buffer before the current word. */
  function Lead(charset: Text, closed: seq<Text>): Text {
    if closed == [] then "" else Words(charset, closed) + " "
  }

  lemma WordsLast(charset: Text, closed: seq<Text>, cur: Text)
    ensures Words(charset, closed + [cur]) == Lead(charset, closed) + (Open(charset) + QString(cur)) + "?="
  {
    hide Open, QString;
    var all := closed + [cur];
    assert all[..|all| - 1] == closed && all[|all| - 1] == cur;
    var o, q := Open(charset), QString(cur);
    if closed == [] {
      assert "" + (o + q) == o + q;
      Cat(o, q, "?=");
    } else {
      var w := Words(charset, closed);
      assert w + (" " + (o + (q + "?="))) == (w + " ") + (o + q) + "?=";
    }
  }

  lemma WholeLast(pieces: seq<Text>, cur: Text)
    ensures Whole(pieces + [cur]) == Whole(pieces) + cur
  {
    assert (pieces + [cur])[..|pieces + [cur]| - 1] == pieces;
  }

  lemma PlainLen(c: char)
    ensures |QChar(c)| == if ' ' <= c <= '~' && c != '=' && c != '?' && c != '_' then 1 else 3
  {
  }

  lemma {:induction false} AllTriples(t: Text)
    requires forall k :: 0 <= k < |t| ==> |QChar(t[k])| == 3
    ensures |QString(t)| == 3 * |t|
  {
    if t != "" { AllTriples(t[..|t| - 1]); }
  }

  /** The encoded length that qEncode expects of a character. */
  lemma ChunkLen(s: Text, i: nat)
    requires i < |s| && IsBytes(s)
    ensures var plain := ' ' <= s[i] <= '~' && s[i] != '=' && s[i] != '?' && s[i] != '_';
            && (plain ==> RuneLen(s, i) == 1 && |QString(s[i..i + 1])| == 1)
            && (!plain ==> |QString(s[i..i + RuneLen(s, i)])| == 3 * RuneLen(s, i))
  {
    hide QChar;
    var n := RuneLen(s, i);
    var t := s[i..i + n];
    var b := Bytes(s[i..]);
    PlainLen(s[i]);
    if n == 1 {
      assert t == [s[i]] && QString(t[..0]) == "";
      assert QString(t) == QString(t[..0]) + QChar(s[i]);
    } else {
      forall k | 0 <= k < n ensures |QChar(t[k])| == 3 {
        if k > 0 { Utf8.Continues(b, k); }
        assert b[k] == t[k] as int % 256;
        PlainLen(t[k]);
      }
      AllTriples(t);
    }
  }

  /** qEncode into encoded-words; for charset UTF-8 in any letter case, each of them has
      75 characters at most, none ends inside a character, and no word is begun as long as
      the next character fits. */
  method QEncodeWord(charset: Text, s: Text) returns (buf: Text, ghost pieces: seq<Text>)
    requires IsBytes(s)
    ensures pieces != [] && Whole(pieces) == s && buf == Words(charset, pieces)
    ensures !IsUTF8(charset) ==> pieces == [s]
    ensures IsUTF8(charset) ==> CutWell(s, pieces) && NoneTooShort(s, pieces)
  {
    hide IsUTF8, QString, Words, Open;
    buf := "=?" + charset + "?" + "q" + "?";
    NoContent(charset);
    ghost var closed: seq<Text> := [];
    ghost var cur := "";
    assert buf == Lead(charset, []) + (Open(charset) + QString(""));
    if !IsUTF8(charset) {
      buf := buf + QString(s);
      cur := s;
      assert Whole([s]) == s;
    } else {
      buf, closed, cur := QEncode(charset, s, buf);
      WholeLast(closed, cur);
    }
    WordsLast(charset, closed, cur);
    buf := buf + "?=";
    pieces := closed + [cur];
  }

  /** The words closed so far and the one being written. */
  ghost predicate Written(charset: Text, s: Text, closed: seq<Text>, cur: Text, i: nat, buf: Text) {
    && i <= |s| && buf == Lead(charset, closed) + (Open(charset) + QString(cur))
    && Whole(closed) + cur == s[..i] && Boundary(s, 0, i)
    && Closed(s, closed)
  }

  ghost predicate Closed(s: Text, closed: seq<Text>) {
    && (forall k :: 0 <= k < |closed| ==> |QString(closed[k])| <= MAX_CONTENT_LEN)
    && (forall k :: 0 <= k <= |closed| ==> Boundary(s, 0, |Whole(closed[..k])|))
  }

  lemma CloseWord(s: Text, closed: seq<Text>, cur: Text, i: nat)
    requires Closed(s, closed) && |QString(cur)| <= MAX_CONTENT_LEN && i <= |s|
    requires Whole(closed) + cur == s[..i] && Boundary(s, 0, i)
    ensures Closed(s, closed + [cur]) && Whole(closed + [cur]) == s[..i]
  {
    hide QString, Boundary, Whole;
    var all := closed + [cur];
    WholeLast(closed, cur);
    forall k | 0 <= k <= |all| ensures Boundary(s, 0, |Whole(all[..k])|) {
      if k <= |closed| { assert all[..k] == closed[..k]; } else { assert all[..k] == all; }
    }
  }

  method QEncode(charset: Text, s: Text, buf0: Text) returns (buf: Text, ghost closed: seq<Text>, ghost cur: Text)
    requires IsBytes(s) && buf0 == Lead(charset, []) + (Open(charset) + QString(""))
    ensures buf == Lead(charset, closed) + (Open(charset) + QString(cur))
    ensures CutWell(s, closed + [cur]) && Whole(closed) + cur == s && NoneTooShort(s, closed + [cur])
  {
    hide Full, NoneTooShort, QString, Open, Lead, RuneLen, IsBytes;
    OneIsFull(s);
    buf, closed, cur := buf0, [], "";
    var currentLen: nat := 0;
    NoContent(charset);
    assert Whole([]) + "" == s[..0];
    var i: nat := 0;
    while i < |s|
      invariant Written(charset, s, closed, cur, i, buf)
      invariant currentLen == |QString(cur)| <= MAX_CONTENT_LEN
      invariant NoneTooShort(s, closed + [cur])
      decreases |s| - i
    {
      var b := s[i];
      var runeLen: nat, encLen: nat := 1, 1;
      if !(' ' <= b <= '~' && b != '=' && b != '?' && b != '_') {
        runeLen := RuneLen(s, i);
        encLen := 3 * runeLen;
      }
      ChunkLen(s, i);
      if currentLen + encLen > MAX_CONTENT_LEN {
        buf, closed, cur := SplitWord(charset, s, buf, closed, cur, i);
        currentLen := 0;
      }
      buf, cur := WriteChunk(charset, s, buf, closed, cur, i, runeLen);
      currentLen := currentLen + encLen;
      i := i + runeLen;
    }
    assert s[..i] == s;
    CloseWord(s, closed, cur, i);
  }

  method SplitWord(charset: Text, s: Text, buf0: Text, ghost closed0: seq<Text>, ghost cur0: Text, ghost i: nat)
    returns (buf: Text, ghost closed: seq<Text>, ghost cur: Text)
    requires Written(charset, s, closed0, cur0, i, buf0) && |QString(cur0)| <= MAX_CONTENT_LEN
    requires i < |s| && |QString(cur0)| + |QString(s[i..i + RuneLen(s, i)])| > MAX_CONTENT_LEN
    requires NoneTooShort(s, closed0 + [cur0])
    ensures Written(charset, s, closed, cur, i, buf) && cur == "" && QString(cur) == ""
    ensures NoneTooShort(s, closed + [cur])
  {
    hide Words, Boundary, Whole, NoneTooShort, Full, RuneLen, QString, IsUTF8, Open;
    NoContent(charset);
    SplitFull(s, closed0, cur0, i);
    buf := buf0 + "?=";
    buf := buf + " ";
    buf := buf + ("=?" + charset + "?" + "q" + "?");
    closed, cur := closed0 + [cur0], "";
    WordsLast(charset, closed0, cur0);
    CloseWord(s, closed0, cur0, i);
    assert Whole(closed) + "" == Whole(closed);
    assert Open(charset) + QString("") == Open(charset);
  }

  method WriteChunk(charset: Text, s: Text, buf0: Text, ghost closed: seq<Text>, ghost cur0: Text, i: nat, n: nat)
    returns (buf: Text, ghost cur: Text)
    requires Written(charset, s, closed, cur0, i, buf0) && i < |s| && n == RuneLen(s, i)
    requires NoneTooShort(s, closed + [cur0])
    ensures Written(charset, s, closed, cur, i + n, buf) && NoneTooShort(s, closed + [cur])
    ensures |QString(cur)| == |QString(cur0)| + |QString(s[i..i + n])|
  {
    hide Words, Boundary, Whole, Lead, Open, Closed, QString, NoneTooShort;
    var chunk := s[i..i + n];
    buf := buf0 + QString(chunk);
    cur := cur0 + chunk;
    QStringConcat(cur0, chunk);
    Cut(s, i, n);
    Cat(Whole(closed), cur0, chunk);
    BoundaryNext(s, 0, i);
    Regroup(Lead(charset, closed), Open(charset), QString(cur0), QString(chunk));
    LastGrows(s, closed, cur0, cur);
  }

  lemma QStringConcat(a: Text, b: Text)
    ensures QString(a + b) == QString(a) + QString(b)
  {
    EachConcat(QChar, a, b);
  }

  lemma Cut(s: Text, i: nat, n: nat)
    requires i + n <= |s|
    ensures s[..i + n] == s[..i] + s[i..i + n]
  {
  }

  lemma Regroup(a: Text, b: Text, c: Text, d: Text)
    ensures (a + (b + c)) + d == a + (b + (c + d))
  {
  }

  /** Each word of a well cut text has 75 characters at most. */
  lemma WordLength(charset: Text, s: Text, pieces: seq<Text>, k: nat)
    requires IsUTF8(charset) && CutWell(s, pieces) && k < |pieces|
    ensures |Word(charset, pieces[k])| <= MAX_ENCODED_WORD_LEN
  {
    assert |charset| == |LowerAscii(charset)|;
  }
}
