/** bufio/bufio.go: buffered reading up to a delimiter, for every buffer of at least 16
    bytes and every chunking of the source. */
module Bufio {

  import opened Common
  import opened IndexBytes
  import opened Sources

  const MIN_READ_BUFFER_SIZE := 16
  const LF: Byte := 10
  const CR: Byte := 13

  datatype Error = BufferFull | NoProgress | Final(code: int)

  // ----- what the calls mean

  /** The input through the first c, or all of it. */
  function Through(s: seq<Byte>, c: Byte): (r: seq<Byte>)
    ensures r <= s
  {
    var i := IndexByte(s, c);
    if i < 0 then s else s[..i + 1]
  }

  /** A raw line without its end, \n or \r\n. */
  function DropEol(raw: seq<Byte>): seq<Byte> {
    if raw == [] || raw[|raw| - 1] != LF then raw
    else if |raw| > 1 && raw[|raw| - 2] == CR then raw[..|raw| - 2]
    else raw[..|raw| - 1]
  }

  /** The lines of a text; what follows the last \n is a line if it is not empty. */
  function Lines(s: seq<Byte>): seq<seq<Byte>>
    decreases |s|
  {
    if s == [] then []
    else
      var raw := Through(s, LF);
      if raw == [] then [] else [DropEol(raw)] + Lines(s[|raw|..])
  }

  // ----- the reader

  class Reader {
    const buf: array<Byte>
    const rd: Source
    var r: nat
    var w: nat
    var err: Option<Error>
    var lastByte: int

    ghost predicate Valid()
      reads this, rd
    {
      && buf.Length >= MIN_READ_BUFFER_SIZE && r <= w <= buf.Length && rd.idle <= rd.patience
      && (err.Some? ==> Ends(err.value))
    }

    /** The source is at its end, or has stalled. */
    ghost predicate Ends(e: Error)
      reads this, rd
    {
      if e == NoProgress then rd.patience >= MAX_EMPTY_READS else e == Final(rd.last) && rd.rest == []
    }

    /** Everything not yet returned: what is buffered, then what the source still has. */
    ghost function Stream(): seq<Byte>
      requires r <= w <= buf.Length
      reads this, buf, rd
    {
      buf[r..w] + rd.rest
    }

    constructor (rd: Source, size: nat)
      requires rd.idle <= rd.patience
      ensures Valid() && fresh(buf) && this.rd == rd && Stream() == rd.rest
    {
      buf := new Byte[if size < MIN_READ_BUFFER_SIZE then MIN_READ_BUFFER_SIZE else size];
      this.rd := rd;
      r, w, err, lastByte := 0, 0, None, -1;
    }

    /** copy(b.buf, b.buf[b.r:b.w]) */
    method MoveDown()
      requires r <= w <= buf.Length
      modifies this`r, this`w, buf
      ensures r == 0 && w == old(w - r) && buf[..w] == old(buf[r..w])
    {
      forall i | 0 <= i < w - r { buf[i] := buf[r + i]; }
      r, w := 0, w - r;
    }

    /** b.rd.Read(b.buf[b.w:]) */
    method ReadInto() returns (n: nat, e: Option<int>)
      requires Valid() && r == 0 && w < buf.Length
      modifies this`w, buf, rd
      ensures w == old(w) + n <= buf.Length && buf[..old(w)] == old(buf[..w])
      ensures buf[..w] + rd.rest == old(buf[..w] + rd.rest)
      ensures e.Some? ==> rd.rest == [] && e.value == rd.last
      ensures rd.idle == (if n == 0 && e.None? then old(rd.idle) + 1 else 0) <= rd.patience
    {
      var chunk: seq<Byte>;
      chunk, e := rd.Read(buf.Length - w);
      n := |chunk|;
      ghost var before := buf[..w];
      forall i | 0 <= i < n { buf[w + i] := chunk[i]; }
      w := w + n;
      assert buf[..w] == before + chunk;
    }

    method Fill()
      requires Valid() && err.None? && w - r < buf.Length
      modifies this, buf, rd
      ensures Valid() && Stream() == old(Stream()) && r == 0
      ensures err.Some? || w > old(w - r)
      ensures w >= old(w - r) && buf[..old(w - r)] == old(buf[r..w]) && lastByte == old(lastByte)
    {
      if r > 0 { MoveDown(); }
      ghost var w0 := w;
      ghost var pending := buf[..w];
      var i := MAX_EMPTY_READS;
      while i > 0
        invariant 0 <= i <= MAX_EMPTY_READS && r == 0 && w == w0 < buf.Length && Valid() && err.None?
        invariant buf[..w0] == pending && buf[..w] + rd.rest == old(Stream())
        invariant rd.idle >= MAX_EMPTY_READS - i && lastByte == old(lastByte)
      {
        var n, e := ReadInto();
        if e.Some? {
          err := Some(Final(e.value));
          return;
        }
        if n > 0 { return; }
        i := i - 1;
      }
      err := Some(NoProgress);
    }

    /** readErr, at the end of the data. */
    method ReadErr() returns (e: Error)
      requires Valid() && err.Some?
      modifies this`err
      ensures Valid() && err.None? && Ends(e) && Some(e) == old(err)
    {
      e := err.value;
      err := None;
    }

    /** b.r += n */
    method Take(n: nat) returns (line: seq<Byte>)
      requires Valid() && r + n <= w
      modifies this`r
      ensures Valid() && r == old(r) + n && line == buf[old(r)..r] && line + Stream() == old(Stream())
    {
      line := buf[r..r + n];
      assert buf[r..w] == line + buf[r + n..w];
      r := r + n;
    }

    method TakeThrough(i: nat, delim: Byte) returns (line: seq<Byte>)
      requires Valid() && r + i < w && buf[r + i] == delim && delim !in buf[r..r + i]
      modifies this`r
      ensures Valid() && line + Stream() == old(Stream())
      ensures line != [] && line[|line| - 1] == delim && delim !in line[..|line| - 1]
    {
      line := Take(i + 1);
      assert line[..i] == buf[old(r)..old(r) + i];
    }

    /** All that is buffered, and the error that stops it from growing. */
    method TakeAll(delim: Byte) returns (line: seq<Byte>, e: Option<Error>)
      requires Valid() && err.Some? && delim !in buf[r..w]
      modifies this`r, this`err
      ensures Valid() && line + Stream() == old(Stream()) && delim !in line
      ensures e.Some? && e.value != BufferFull && Ends(e.value) && r == w
    {
      line := Take(w - r);
      var x := ReadErr();
      e := Some(x);
    }

    /** Is delim among the bytes not searched yet? */
    method Search(s: nat, delim: Byte) returns (i: int)
      requires Valid() && s <= w - r && delim !in buf[r..r + s]
      ensures i < 0 ==> delim !in buf[r..w]
      ensures i >= 0 ==> r + i < w && buf[r + i] == delim && delim !in buf[r..r + i]
    {
      hide IndexByte;
      i := IndexByte(buf[r + s..w], delim);
      assert buf[r..w][s..] == buf[r + s..w] && buf[r..w][..s] == buf[r..r + s];
      SearchRest(buf[r..w], s, delim);
      if i >= 0 {
        i := i + s;
        assert buf[r..w][..i] == buf[r..r + i];
      }
    }

    /** The bytes through delim; or, with an error, a full buffer or all that is left,
        without delim. */
    method ReadSlice(delim: Byte) returns (line: seq<Byte>, e: Option<Error>)
      requires Valid()
      modifies this, buf, rd
      ensures Valid() && line + Stream() == old(Stream())
      ensures e.None? ==> line != [] && line[|line| - 1] == delim && delim !in line[..|line| - 1]
      ensures e.Some? ==> delim !in line
      ensures e == Some(BufferFull) ==>
          |line| == buf.Length && r == w && err.None? && r > 0 && buf[r - 1] == line[|line| - 1]
      ensures e.Some? && e.value != BufferFull ==> Ends(e.value) && r == w
    {
      hide IndexByte;
      var s: nat := 0;
      while true
        invariant Valid() && Stream() == old(Stream())
        invariant s <= w - r && delim !in buf[r..r + s]
        decreases if err.Some? then 0 else 1, buf.Length - (w - r)
      {
        var i := Search(s, delim);
        if i >= 0 {
          line := TakeThrough(i, delim);
          e := None;
          break;
        }
        if err.Some? {
          line, e := TakeAll(delim);
          break;
        }
        if w - r >= buf.Length {
          line := Take(w - r);
          e := Some(BufferFull);
          break;
        }
        s := w - r;
        Fill();
      }
      if |line| > 0 { lastByte := line[|line| - 1]; }
    }

    /** One fragment of a line; raw is what it took from the stream.  A \r at the end of a
        full buffer is put back, for the next call to see whether \n follows. */
    method ReadLine() returns (line: seq<Byte>, isPrefix: bool, e: Option<Error>, ghost raw: seq<Byte>)
      requires Valid()
      modifies this, buf, rd
      ensures Valid() && raw + Stream() == old(Stream())
      ensures e.Some? ==> !isPrefix && line == raw == [] && Ends(e.value) && r == w
      ensures e.None? ==> raw != []
      ensures isPrefix ==> line == raw && LF !in raw && (raw[|raw| - 1] != CR || (Stream() != [] && Stream()[0] == CR))
      ensures !isPrefix && e.None? ==> line == DropEol(raw) && LF !in raw[..|raw| - 1]
      ensures !isPrefix && e.None? && raw[|raw| - 1] != LF ==> Stream() == [] || rd.patience >= MAX_EMPTY_READS
    {
      line, e := ReadSlice(LF);
      raw := line;
      if e == Some(BufferFull) {
        if |line| > 0 && line[|line| - 1] == CR {
          PutBack(line);
          line := line[..|line| - 1];
          raw := line;
        }
        return line, true, None, raw;
      }
      if |line| == 0 {
        return [], false, e, raw;
      }
      e := None;
      if line[|line| - 1] == LF {
        var drop := 1;
        if |line| > 1 && line[|line| - 2] == CR {
          drop := 2;
        }
        line := line[..|line| - drop];
      }
      return line, false, None, raw;
    }

    /** b.r-- over the \r that ends line */
    method PutBack(line: seq<Byte>)
      requires Valid() && r == w && err.None? && r > 0 && line != [] && line[|line| - 1] == CR == buf[r - 1]
      modifies this`r
      ensures Valid() && line[..|line| - 1] + Stream() == line + old(Stream()) && Stream() != [] && Stream()[0] == CR
    {
      r := r - 1;
      assert buf[r..w] == [CR] && buf[w..w] == [];
      assert line == line[..|line| - 1] + [CR];
    }

    /** Full buffers while the delimiter does not come, and what is left. */
    method CollectFragments(delim: Byte) returns (full: seq<seq<Byte>>, frag: seq<Byte>, e: Option<Error>)
      requires Valid()
      modifies this, buf, rd
      ensures Valid() && (Concat(full) + frag) + Stream() == old(Stream())
      ensures e.None? ==> frag != [] && frag[|frag| - 1] == delim && delim !in Concat(full) + frag[..|frag| - 1]
      ensures e.Some? ==> delim !in Concat(full) + frag && Ends(e.value) && r == w
    {
      full := [];
      ghost var s := Stream();
      assert Concat([]) + Stream() == Stream();
      while true
        invariant Valid() && Concat(full) + Stream() == s && delim !in Concat(full)
        decreases |Stream()|
      {
        ghost var before := Stream();
        frag, e := ReadSlice(delim);
        Cat(Concat(full), frag, Stream());
        if e != Some(BufferFull) { break; }
        ConcatLast(full, frag);
        full := full + [frag];
      }
    }

    /** Exactly the input through the first delim; with an error, the input to its end. */
    method ReadBytes(delim: Byte) returns (line: seq<Byte>, e: Option<Error>)
      requires Valid()
      modifies this, buf, rd
      ensures Valid() && line + Stream() == old(Stream())
      ensures e.None? ==> line == Through(old(Stream()), delim) && delim in line
      ensures e.Some? ==> delim !in line && Ends(e.value)
      ensures e.Some? && e.value != NoProgress ==> line == old(Stream()) && Stream() == []
    {
      hide Through;
      var full: seq<seq<Byte>>, frag: seq<Byte>;
      full, frag, e := CollectFragments(delim);
      line := Concat(full) + frag;
      if e.None? {
        assert line[..|line| - 1] == Concat(full) + frag[..|frag| - 1];
        ThroughFirst(line, Stream(), delim);
      } else {
        assert line + [] == line;
      }
    }

    /** ReadLine to the end, its fragments joined where isPrefix says so. */
    method ReadLines() returns (lines: seq<seq<Byte>>)
      requires Valid()
      modifies this, buf, rd
      ensures Valid()
      ensures rd.patience < MAX_EMPTY_READS ==> lines == Lines(old(Stream()))
    {
      hide Lines, DropEol;
      lines := [];
      var acc: seq<Byte> := [];
      ghost var s := Stream();
      assert [] + s == s && [] + Lines(s) == Lines(s);
      while true
        invariant Valid()
        invariant LF !in acc && Joint(acc, Stream())
        invariant rd.patience < MAX_EMPTY_READS ==> lines + Lines(acc + Stream()) == Lines(s)
        decreases |Stream()|
      {
        ghost var before := Stream();
        var line, isPrefix, e, raw := ReadLine();
        if e.Some? {
          AtEnd(acc, Stream());
          if acc != [] { lines := lines + [acc]; }
          return;
        }
        if isPrefix {
          Cat(acc, raw, Stream());
          acc := acc + line;
        } else {
          if rd.patience < MAX_EMPTY_READS { WholeLine(acc, raw, Stream(), lines); }
          lines := lines + [acc + line];
          acc := [];
          assert [] + Stream() == Stream();
        }
      }
    }
  }

  /** Searching the rest of a, when delim is not in its first k bytes. */
  lemma SearchRest(a: seq<Byte>, k: nat, delim: Byte)
    requires k <= |a| && delim !in a[..k]
    ensures var i := IndexByte(a[k..], delim);
            if i < 0 then delim !in a else a[k + i] == delim && delim !in a[..k + i]
  {
    var i := IndexByte(a[k..], delim);
    assert a == a[..k] + a[k..];
    if i >= 0 {
      assert a[..k + i] == a[..k] + a[k..][..i];
    }
  }

  /** A prefix ends in \r only if another \r is next. */
  ghost predicate Joint(acc: seq<Byte>, rest: seq<Byte>) {
    acc == [] || acc[|acc| - 1] != CR || (rest != [] && rest[0] == CR)
  }

  function Concat(a: seq<seq<Byte>>): seq<Byte> {
    if a == [] then [] else Concat(a[..|a| - 1]) + a[|a| - 1]
  }

  lemma ConcatLast(a: seq<seq<Byte>>, x: seq<Byte>)
    ensures Concat(a + [x]) == Concat(a) + x
  {
    assert (a + [x])[..|a + [x]| - 1] == a;
  }

  lemma ThroughFirst(line: seq<Byte>, rest: seq<Byte>, c: Byte)
    requires line != [] && line[|line| - 1] == c && c !in line[..|line| - 1]
    ensures Through(line + rest, c) == line
  {
    var s := line + rest;
    var i := IndexByte(s, c);
    assert forall k :: 0 <= k < |line| - 1 ==> s[k] == line[..|line| - 1][k];
    assert s[|line| - 1] == c;
    assert s[..|line|] == line;
  }

  lemma AtEnd(acc: seq<Byte>, rest: seq<Byte>)
    requires LF !in acc
    ensures rest == [] ==> Lines(acc + rest) == if acc == [] then [] else [acc]
  {
    if rest == [] {
      assert acc + rest == acc;
      if acc != [] { assert Through(acc, LF) == acc && acc[|acc|..] == []; }
    }
  }

  /** Cutting a line into fragments changes neither its end nor what is dropped from it. */
  lemma WholeLine(acc: seq<Byte>, raw: seq<Byte>, rest: seq<Byte>, lines: seq<seq<Byte>>)
    requires raw != [] && LF !in acc && LF !in raw[..|raw| - 1] && Joint(acc, raw + rest)
    requires raw[|raw| - 1] != LF ==> rest == []
    ensures lines + Lines(acc + (raw + rest)) == (lines + [acc + DropEol(raw)]) + Lines(rest)
  {
    hide DropEol, Through, Joint, IndexByte;
    var whole := acc + raw;
    Cat(acc, raw, rest);
    ThroughIs(whole, rest);
    assert (whole + rest)[|whole|..] == rest;
    DropJoined(acc, raw, rest);
    AppendLines(lines, DropEol(whole), Lines(rest));
  }

  lemma AppendLines(lines: seq<seq<Byte>>, line: seq<Byte>, more: seq<seq<Byte>>)
    ensures lines + ([line] + more) == (lines + [line]) + more
  {
  }

  lemma ThroughIs(whole: seq<Byte>, rest: seq<Byte>)
    requires whole != [] && LF !in whole[..|whole| - 1] && (whole[|whole| - 1] != LF ==> rest == [])
    ensures Through(whole + rest, LF) == whole
  {
    if whole[|whole| - 1] == LF {
      ThroughFirst(whole, rest, LF);
    } else {
      assert whole == whole[..|whole| - 1] + [whole[|whole| - 1]];
      assert whole + rest == whole;
    }
  }

  lemma DropJoined(acc: seq<Byte>, raw: seq<Byte>, rest: seq<Byte>)
    requires raw != [] && Joint(acc, raw + rest)
    ensures DropEol(acc + raw) == acc + DropEol(raw)
  {
    var whole := acc + raw;
    assert (raw + rest)[0] == raw[0];
    assert whole[|whole| - 1] == raw[|raw| - 1];
    if |raw| > 1 { assert whole[|whole| - 2] == raw[|raw| - 2]; }
  }

  // ----- Lines is what a text means

  /** Each line ended by \n. */
  function Text(lines: seq<seq<Byte>>): seq<Byte> {
    if lines == [] then [] else (lines[0] + [LF]) + Text(lines[1..])
  }

  lemma {:induction false} LinesOfText(lines: seq<seq<Byte>>)
    requires forall i :: 0 <= i < |lines| ==> LF !in lines[i] && (lines[i] != [] ==> lines[i][|lines[i]| - 1] != CR)
    ensures Lines(Text(lines)) == lines
  {
    if lines != [] {
      var raw, rest := lines[0] + [LF], Text(lines[1..]);
      assert raw[..|raw| - 1] == lines[0];
      ThroughFirst(raw, rest, LF);
      assert (raw + rest)[|raw|..] == rest;
      LinesOfText(lines[1..]);
    }
  }
}
