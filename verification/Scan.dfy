/** bufio/scan.go: Scanner with its default split function, ScanLines. */
module Scan {

  import opened Common
  import opened IndexBytes
  import opened Sources
  import Bufio

  const START_BUF_SIZE := 4096
  const MAX_INT := 0x7FFF_FFFF_FFFF_FFFF
  const LF: Byte := 10
  const CR: Byte := 13

  datatype Error = EOF | TooLong | NoProgress | Other(code: int)

  /** The error of a source; 0 stands for io.EOF. */
  function FromSource(code: int): Error { if code == 0 then EOF else Other(code) }

  // ----- splitting

  function DropCR(data: seq<Byte>): seq<Byte> {
    if |data| > 0 && data[|data| - 1] == CR then data[..|data| - 1] else data
  }

  datatype Split = Split(advance: nat, token: Option<seq<Byte>>)

  function ScanLines(data: seq<Byte>, atEOF: bool): (r: Split)
    ensures r.advance <= |data| && (r.token.Some? <==> r.advance > 0)
  {
    if atEOF && |data| == 0 then Split(0, None)
    else
      var i := IndexByte(data, LF);
      if i >= 0 then Split(i + 1, Some(DropCR(data[..i])))
      else if atEOF then Split(|data|, Some(DropCR(data)))
      else Split(0, None)
  }

  /** The tokens of a whole input: its lines, each less its \n and a \r before it, and
      what follows the last \n, less a \r at its end, if it is not empty. */
  function Tokens(s: seq<Byte>): seq<seq<Byte>>
    decreases |s|
  {
    if s == [] then []
    else
      var t := ScanLines(s, true);
      if t.token.None? then [] else [t.token.value] + Tokens(s[t.advance..])
  }

  /** Every line, without its \n, is shorter than k. */
  ghost predicate ShortLines(s: seq<Byte>, k: int)
    decreases |s|
  {
    var i := IndexByte(s, LF);
    if i < 0 then s == [] || |s| < k else i < k && ShortLines(s[i + 1..], k)
  }

  // ----- the scanner

  class Scanner {
    const rd: Source
    const maxTokenSize: int
    var token: seq<Byte>
    var buf: array<Byte>
    var start: nat
    var end: nat
    var err: Option<Error>

    ghost predicate Valid()
      reads this, rd
    {
      && start <= end <= buf.Length && rd.idle <= rd.patience
      && (err.Some? ==> Stops(err.value))
    }

    /** TooLong and NoProgress apart, the source has no more to give. */
    ghost predicate Stops(e: Error)
      reads this, rd
    {
      match e
      case TooLong => true
      case NoProgress => rd.patience > MAX_EMPTY_READS
      case _ => e == FromSource(rd.last) && rd.rest == []
    }

    ghost function Stream(): seq<Byte>
      requires start <= end <= buf.Length
      reads this, buf, rd
    {
      buf[start..end] + rd.rest
    }

    /** NewScanner, and Buffer when there is a buffer to start with. */
    constructor (rd: Source, initial: nat, maxTokenSize: int)
      requires rd.idle <= rd.patience
      ensures Valid() && fresh(buf) && this.rd == rd && Stream() == rd.rest && err.None?
      ensures this.maxTokenSize == maxTokenSize
    {
      this.rd, this.maxTokenSize := rd, maxTokenSize;
      buf := new Byte[initial];
      token, start, end, err := [], 0, 0, None;
    }

    method SetErr(e: Error)
      requires Valid() && Stops(e)
      modifies this`err
      ensures Valid() && err.Some? && (old(err).None? ==> err == Some(e))
    {
      if err.None? || err == Some(EOF) { err := Some(e); }
    }

    /** copy(s.buf, s.buf[s.start:s.end]) */
    method MoveDown()
      requires Valid()
      modifies this`start, this`end, buf
      ensures Valid() && start == 0 && end == old(end - start) && Stream() == old(Stream())
          && buf[..end] == old(buf[start..end])
    {
      ghost var kept := buf[start..end];
      var n := end - start;
      forall i | 0 <= i < n { buf[i] := buf[start + i]; }
      assert buf[0..n] == kept && buf[..n] == kept;
      start, end := 0, n;
    }

    /** A larger buffer, up to maxTokenSize. */
    method Enlarge()
      requires Valid() && buf.Length < maxTokenSize
      modifies this`start, this`end, this`buf
      ensures Valid() && fresh(buf) && start == 0 && end == old(end - start) && Stream() == old(Stream())
      ensures old(buf.Length) < buf.Length <= maxTokenSize
      ensures var twice := if old(buf.Length) == 0 then 4096 else 2 * old(buf.Length);
              buf.Length == if twice < maxTokenSize then twice else maxTokenSize
    {
      var newSize := buf.Length * 2;
      if newSize == 0 { newSize := START_BUF_SIZE; }
      if newSize > maxTokenSize { newSize := maxTokenSize; }
      var newBuf := new Byte[newSize];
      CopyInto(newBuf);
      buf, start, end := newBuf, 0, end - start;
    }

    /** copy(newBuf, s.buf[s.start:s.end]) */
    method CopyInto(newBuf: array<Byte>)
      requires start <= end <= buf.Length && end - start <= newBuf.Length && newBuf != buf
      modifies newBuf
      ensures newBuf[0..end - start] == buf[start..end]
    {
      var n := end - start;
      forall i | 0 <= i < n { newBuf[i] := buf[start + i]; }
    }

    /** One s.r.Read(s.buf[s.end:len(s.buf)]) */
    method ReadInto() returns (n: nat, e: Option<int>)
      requires Valid() && end < buf.Length && err.None?
      modifies this`end, buf, rd
      ensures Valid() && end == old(end) + n && Stream() == old(Stream()) && |rd.rest| == old(|rd.rest|) - n
      ensures e.Some? ==> rd.rest == [] && e.value == rd.last
      ensures rd.idle == (if n == 0 && e.None? then old(rd.idle) + 1 else 0)
    {
      var chunk: seq<Byte>;
      chunk, e := rd.Read(buf.Length - end);
      n := |chunk|;
      ghost var before := buf[start..end];
      forall i | 0 <= i < n { buf[end + i] := chunk[i]; }
      Extended(buf[..], start, end, n, before, chunk);
      end := end + n;
      Cat(before, chunk, rd.rest);
    }

    /** Reads until there is data or an error. */
    method ReadMore()
      requires Valid() && end < buf.Length && err.None?
      modifies this`end, this`err, buf, rd
      ensures Valid() && Stream() == old(Stream())
      ensures err.Some? || |rd.rest| < old(|rd.rest|)
      ensures err != Some(TooLong) && |rd.rest| <= old(|rd.rest|)
    {
      var loop := 0;
      while true
        invariant 0 <= loop <= MAX_EMPTY_READS && Valid() && err.None? && Stream() == old(Stream())
        invariant end == old(end) < buf.Length && rd.idle >= loop && |rd.rest| == old(|rd.rest|)
        decreases MAX_EMPTY_READS - loop
      {
        var n, e := ReadInto();
        if e.Some? {
          SetErr(FromSource(e.value));
          break;
        }
        if n > 0 { break; }
        loop := loop + 1;
        if loop > MAX_EMPTY_READS {
          SetErr(NoProgress);
          break;
        }
      }
    }

    /** The source does not stall, and no line has been too long so far. */
    ghost predicate Calm()
      reads this, rd
    {
      rd.patience <= MAX_EMPTY_READS && err != Some(TooLong)
    }

    /** A token from what is buffered, if there is one: the next token of the stream. */
    method TryToken() returns (found: bool)
      requires Valid()
      modifies this`start, this`token
      ensures Valid()
      ensures found && Calm() ==> IsNext(old(Stream()), token, Stream())
      ensures !found ==> start == old(start) && (err.None? ==> LF !in buf[start..end]) && (err.Some? ==> start == end)
    {
      found := false;
      if end > start || err.Some? {
        var data := buf[start..end];
        var t := ScanLines(data, err.Some?);
        if t.token.Some? {
          hide ScanLines;
          if Calm() { NextToken(data, rd.rest, err.Some?); }
          assert data[t.advance..] == buf[start + t.advance..end];
          start := start + t.advance;
          token := t.token.value;
          return true;
        }
      }
    }

    /** Room to read more; ErrTooLong when the buffer may not grow. */
    method MakeRoom() returns (ok: bool)
      requires Valid() && err.None? && LF !in buf[start..end]
      modifies this`start, this`end, this`buf, this`err, buf
      ensures Valid() && Stream() == old(Stream()) && (buf == old(buf) || fresh(buf))
      ensures ok ==> end < buf.Length && err.None?
      ensures !ok ==> err == Some(TooLong) && (buf.Length >= maxTokenSize || buf.Length > MAX_INT / 2)
      ensures !ok ==> |Stream()| >= buf.Length && LF !in Stream()[..buf.Length]
    {
      if start > 0 && (end == buf.Length || start > buf.Length / 2) {
        MoveDown();
      }
      if end == buf.Length {
        if buf.Length >= maxTokenSize || buf.Length > MAX_INT / 2 {
          assert Stream()[..buf.Length] == buf[start..end];
          SetErr(TooLong);
          return false;
        }
        Enlarge();
      }
      return true;
    }

    method Scan() returns (ok: bool)
      requires Valid()
      modifies this, buf, rd
      ensures Valid() && (buf == old(buf) || fresh(buf))
      ensures ok && Calm() ==> IsNext(old(Stream()), token, Stream())
      ensures !ok && Calm() ==> old(Stream()) == [] && Stream() == []
      ensures !ok && old(Calm()) && err == Some(TooLong) && maxTokenSize > 0 ==>
          !ShortLines(old(Stream()), TokenLimit(maxTokenSize))
      ensures ok ==> old(err) != Some(TooLong) ==> err != Some(TooLong)
    {
      while true
        invariant Valid() && Stream() == old(Stream()) && (buf == old(buf) || fresh(buf))
        invariant old(err) != Some(TooLong) ==> err != Some(TooLong)
        decreases |rd.rest|, if err.None? then 1 else 0
      {
        ok := TryToken();
        if ok { return true; }
        if err.Some? {
          start, end := 0, 0;
          return false;
        }
        var room := MakeRoom();
        if !room {
          LongLine(Stream(), buf.Length, TokenLimit(maxTokenSize));
          return false;
        }
        ReadMore();
      }
    }

    /** Every token, in order. */
    method ScanAll() returns (tokens: seq<seq<Byte>>)
      requires Valid() && err.None? && maxTokenSize > 0 && rd.patience <= MAX_EMPTY_READS
      requires ShortLines(Stream(), TokenLimit(maxTokenSize))
      modifies this, buf, rd
      ensures Valid() && tokens == Tokens(old(Stream()))
    {
      hide ScanLines, IndexByte, ShortLines, Tokens, IsNext;
      tokens := [];
      ghost var s := Stream();
      assert [] + Tokens(s) == Tokens(s);
      while true
        invariant Valid() && Calm() && (buf == old(buf) || fresh(buf))
        invariant tokens + Tokens(Stream()) == Tokens(s) && ShortLines(Stream(), TokenLimit(maxTokenSize))
        decreases |Stream()|
      {
        ghost var before := Stream();
        var ok := Scan();
        if !ok {
          NoLines();
          break;
        }
        ShortRest(before, token, Stream(), TokenLimit(maxTokenSize));
        Bufio.AppendLines(tokens, token, Tokens(Stream()));
        tokens := tokens + [token];
      }
      assert tokens + [] == tokens;
    }
  }

  /** token is the first of s's tokens, and rest is what is after it. */
  ghost predicate IsNext(s: seq<Byte>, token: seq<Byte>, rest: seq<Byte>) {
    s != [] && ScanLines(s, true).token == Some(token) && rest == s[ScanLines(s, true).advance..]
  }

  function TokenLimit(maxTokenSize: int): int { if maxTokenSize <= MAX_INT / 2 then maxTokenSize else MAX_INT / 2 + 1 }

  lemma NextToken(data: seq<Byte>, rest: seq<Byte>, atEOF: bool)
    requires ScanLines(data, atEOF).token.Some? && (atEOF ==> rest == [])
    ensures var t := ScanLines(data, atEOF);
            ScanLines(data + rest, true) == t && (data + rest)[t.advance..] == data[t.advance..] + rest
  {
    var s := data + rest;
    var i := IndexByte(data, LF);
    if i >= 0 {
      FirstStays(data, rest);
      assert s[..i] == data[..i];
    } else {
      assert s == data;
    }
  }

  lemma FirstStays(data: seq<Byte>, rest: seq<Byte>)
    requires LF in data
    ensures IndexByte(data + rest, LF) == IndexByte(data, LF)
  {
    var s := data + rest;
    var i, j := IndexByte(data, LF), IndexByte(s, LF);
    assert s[i] == data[i];
    assert forall k :: 0 <= k < i ==> s[k] == data[k];
  }

  lemma LongLine(s: seq<Byte>, n: nat, k: int)
    requires n <= |s| && LF !in s[..n] && n >= k
    ensures s != [] ==> !ShortLines(s, k)
    ensures k > 0 ==> s != []
  {
    var i := IndexByte(s, LF);
    assert forall j :: 0 <= j < n ==> s[j] == s[..n][j];
  }

  lemma ShortRest(s: seq<Byte>, token: seq<Byte>, rest: seq<Byte>, k: int)
    requires IsNext(s, token, rest) && ShortLines(s, k)
    ensures |rest| < |s| && ShortLines(rest, k) && Tokens(s) == [token] + Tokens(rest)
  {
  }

  lemma Extended(b: seq<Byte>, start: nat, end: nat, n: nat, before: seq<Byte>, chunk: seq<Byte>)
    requires start <= end && end + n <= |b| && b[start..end] == before && b[end..end + n] == chunk
    ensures b[start..end + n] == before + chunk
  {
  }

  // ----- ScanLines against ReadLine

  /** Both take the same first line off a text with a \n. */
  lemma FirstLine(s: seq<Byte>, i: nat)
    requires i == IndexByte(s, LF)
    ensures Tokens(s) == [DropCR(s[..i])] + Tokens(s[i + 1..])
    ensures Bufio.Lines(s) == [DropCR(s[..i])] + Bufio.Lines(s[i + 1..])
  {
    hide DropCR, IndexByte, Bufio.DropEol;
    SameLine(s, i);
  }

  lemma LastLine(s: seq<Byte>)
    requires s != [] && LF !in s
    ensures Tokens(s) == [DropCR(s)] && Bufio.Lines(s) == [s]
  {
    assert Bufio.Through(s, LF) == s && s[|s|..] == [];
    assert Bufio.DropEol(s) == s;
  }

  predicate Agree(s: seq<Byte>) { Tokens(s) == Bufio.Lines(s) }

  lemma AgreeRest(s: seq<Byte>, i: nat)
    requires i == IndexByte(s, LF)
    ensures Agree(s) <==> Agree(s[i + 1..])
  {
    hide Tokens, Bufio.Lines, IndexByte, DropCR;
    FirstLine(s, i);
    Heads(DropCR(s[..i]), Tokens(s[i + 1..]), Bufio.Lines(s[i + 1..]));
  }

  lemma AgreeNone()
    ensures Agree([])
  {
  }

  lemma AgreeLast(s: seq<Byte>)
    requires s != [] && LF !in s
    ensures Agree(s) <==> s[|s| - 1] != CR
  {
    hide Tokens, Bufio.Lines, DropCR;
    LastLine(s);
    Dropped(s);
  }

  /** The scanner's tokens are the lines that bufio.Reader reads, except that a final line
      without its \n keeps its \r there and loses it here. */
  lemma {:induction false} TokensAreLines(s: seq<Byte>)
    ensures Agree(s) <==> s == [] || s[|s| - 1] != CR
    decreases |s|
  {
    hide *;
    if s == [] {
      AgreeNone();
    } else {
      if LF in s {
        var i := IndexByte(s, LF);
        var rest := s[i + 1..];
        AgreeRest(s, i);
        TokensAreLines(rest);
        LastByte(s, i);
      } else {
        AgreeLast(s);
      }
    }
  }

  lemma NoLines()
    ensures Tokens([]) == [] && Bufio.Lines([]) == []
  {
  }

  lemma LastByte(s: seq<Byte>, i: nat)
    requires i < |s| && s[i] == LF
    ensures var rest := s[i + 1..];
            (rest == [] || rest[|rest| - 1] != CR) <==> s[|s| - 1] != CR
  {
  }

  lemma Dropped(s: seq<Byte>)
    requires s != []
    ensures [DropCR(s)] == [s] <==> s[|s| - 1] != CR
  {
    assert [DropCR(s)][0] == DropCR(s);
    assert [s][0] == s;
    assert |DropCR(s)| == |s| <==> s[|s| - 1] != CR;
  }

  lemma Heads(x: seq<Byte>, a: seq<seq<Byte>>, b: seq<seq<Byte>>)
    ensures [x] + a == [x] + b <==> a == b
  {
    if [x] + a == [x] + b {
      assert ([x] + a)[1..] == a && ([x] + b)[1..] == b;
    }
  }

  lemma SameLine(s: seq<Byte>, i: nat)
    requires i < |s| && s[i] == LF
    ensures Bufio.DropEol(s[..i + 1]) == DropCR(s[..i])
  {
    var raw := s[..i + 1];
    assert raw[..|raw| - 1] == s[..i];
    if i > 0 { assert raw[..|raw| - 2] == s[..i][..i - 1]; }
  }
}
