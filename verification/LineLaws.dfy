/** What the lines of a text are, for bufio.Reader and for bufio.Scanner: ended by \n or by
    \r\n, in any mixture. */
module LineLaws {

  import opened Common
  import opened IndexBytes
  import Bufio
  import Scan

  const LF: Byte := 10
  const CR: Byte := 13

  datatype Line = Line(text: seq<Byte>, crlf: bool)

  /** A line that ends in \n alone does not end in \r\n. */
  predicate LineOk(l: Line) {
    LF !in l.text && (!l.crlf ==> l.text == [] || l.text[|l.text| - 1] != CR)
  }

  function Ended(l: Line): seq<Byte> { l.text + if l.crlf then [CR, LF] else [LF] }

  /** Lines, and what follows the last of them. */
  function Whole(lines: seq<Line>, tail: seq<Byte>): seq<Byte> {
    if lines == [] then tail else Ended(lines[0]) + Whole(lines[1..], tail)
  }

  function Texts(lines: seq<Line>): seq<seq<Byte>> {
    if lines == [] then [] else [lines[0].text] + Texts(lines[1..])
  }

  ghost predicate AllOk(lines: seq<Line>) { forall i :: 0 <= i < |lines| ==> LineOk(lines[i]) }

  function WithoutCR(s: seq<Byte>): seq<Byte> {
    if s != [] && s[|s| - 1] == CR then s[..|s| - 1] else s
  }

  lemma FirstOfWhole(l: Line, rest: seq<Byte>)
    requires LineOk(l)
    ensures var s := Ended(l) + rest;
            var i := |Ended(l)| - 1;
            && IndexByte(s, LF) == i && s[i + 1..] == rest && s[..i + 1] == Ended(l)
            && Scan.DropCR(s[..i]) == l.text && Bufio.DropEol(s[..i + 1]) == l.text
  {
    var e := Ended(l);
    var s := e + rest;
    var i := |e| - 1;
    assert s[i] == LF;
    assert forall k :: 0 <= k < i ==> s[k] == e[k] != LF;
    assert s[..i + 1] == e;
    if l.crlf {
      assert s[..i] == l.text + [CR];
      assert e[..|e| - 2] == l.text;
    } else {
      assert s[..i] == l.text && e[..|e| - 1] == l.text;
    }
  }

  lemma FirstLine(l: Line, rest: seq<Byte>)
    requires LineOk(l)
    ensures Bufio.Lines(Ended(l) + rest) == [l.text] + Bufio.Lines(rest)
    ensures Scan.Tokens(Ended(l) + rest) == [l.text] + Scan.Tokens(rest)
  {
    var s := Ended(l) + rest;
    FirstOfWhole(l, rest);
    hide Scan.DropCR, Bufio.DropEol, IndexByte;
    Scan.FirstLine(s, |Ended(l)| - 1);
  }

  lemma TailLines(tail: seq<Byte>)
    requires LF !in tail
    ensures Bufio.Lines(tail) == if tail == [] then [] else [tail]
    ensures Scan.Tokens(tail) == if tail == [] then [] else [WithoutCR(tail)]
  {
    if tail != [] { Scan.LastLine(tail); }
  }

  /** The lines of a text are its parts between line ends, without those.  What follows the
      last end is a line if it is not empty; the scanner takes a \r off its end. */
  lemma {:induction false} LinesAre(lines: seq<Line>, tail: seq<Byte>)
    requires AllOk(lines) && LF !in tail
    ensures Bufio.Lines(Whole(lines, tail)) == Texts(lines) + if tail == [] then [] else [tail]
    ensures Scan.Tokens(Whole(lines, tail)) == Texts(lines) + if tail == [] then [] else [WithoutCR(tail)]
  {
    hide LineOk, Ended, WithoutCR;
    if lines == [] {
      TailLines(tail);
      assert [] + (if tail == [] then [] else [tail]) == if tail == [] then [] else [tail];
    } else {
      hide Bufio.Lines, Scan.Tokens;
      assert LineOk(lines[0]);
      FirstLine(lines[0], Whole(lines[1..], tail));
      LinesAre(lines[1..], tail);
      var t: seq<seq<Byte>> := if tail == [] then [] else [tail];
      var u: seq<seq<Byte>> := if tail == [] then [] else [WithoutCR(tail)];
      Cat([lines[0].text], Texts(lines[1..]), t);
      Cat([lines[0].text], Texts(lines[1..]), u);
    }
  }

  /** Every text consists of such lines and a tail. */
  lemma {:induction false} EveryText(s: seq<Byte>) returns (lines: seq<Line>, tail: seq<Byte>)
    ensures AllOk(lines) && LF !in tail && s == Whole(lines, tail)
    decreases |s|
  {
    if LF !in s {
      lines, tail := [], s;
    } else {
      var i := IndexByte(s, LF);
      var crlf := i > 0 && s[i - 1] == CR;
      var l := Line(s[..if crlf then i - 1 else i], crlf);
      assert forall k :: 0 <= k < |l.text| ==> l.text[k] == s[k];
      assert s == Ended(l) + s[i + 1..];
      var more;
      more, tail := EveryText(s[i + 1..]);
      lines := [l] + more;
      assert lines[1..] == more;
    }
  }

  /** s[i..j] has no line end. */
  predicate Stretch(s: seq<Byte>, i: int, j: int) { 0 <= i <= j <= |s| && forall x :: i <= x < j ==> s[x] != LF }

  ghost predicate AllShort(s: seq<Byte>, k: int) { forall i, j :: Stretch(s, i, j) ==> j - i < k }

  lemma NoEnds(s: seq<Byte>, k: int)
    requires s != [] && LF !in s
    ensures AllShort(s, k) <==> |s| < k
  {
    if AllShort(s, k) { assert Stretch(s, 0, |s|); }
  }

  /** A stretch lies before the line end at e, or after it. */
  lemma AroundEnd(s: seq<Byte>, e: nat, rest: seq<Byte>, k: int)
    requires e < |s| && s[e] == LF && LF !in s[..e] && rest == s[e + 1..]
    ensures AllShort(s, k) <==> e < k && AllShort(rest, k)
  {
    assert forall x :: 0 <= x < e ==> s[..e][x] == s[x];
    if AllShort(s, k) {
      assert Stretch(s, 0, e);
      forall i, j | Stretch(rest, i, j) ensures j - i < k { assert Stretch(s, i + e + 1, j + e + 1); }
    }
    if e < k && AllShort(rest, k) {
      forall i, j | Stretch(s, i, j) ensures j - i < k {
        if i > e { assert Stretch(rest, i - e - 1, j - e - 1); }
      }
    }
  }

  lemma NothingIsShort(k: int)
    ensures AllShort([], k) <==> k > 0
  {
    assert Stretch([], 0, 0);
  }

  /** Every line, without its \n, is shorter than k exactly if every stretch without \n is. */
  lemma {:induction false} ShortLinesAre(s: seq<Byte>, k: int)
    ensures Scan.ShortLines(s, k) <==> s == [] || AllShort(s, k)
    decreases |s|
  {
    var e := IndexByte(s, LF);
    hide AllShort;
    if s == [] {
    } else if e < 0 {
      NoEnds(s, k);
    } else {
      var rest := s[e + 1..];
      ShortLinesAre(rest, k);
      assert forall x :: 0 <= x < e ==> s[..e][x] == s[x];
      AroundEnd(s, e, rest, k);
      NothingIsShort(k);
    }
  }
}
