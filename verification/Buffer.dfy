/** bytes/buffer.go: the growable queue of bytes. */
module Buffers {

  import opened Common
  import opened Utf8
  import opened IndexBytes

  const SMALL_BUFFER_SIZE := 64
  const MAX_INT := 0x7FFF_FFFF_FFFF_FFFF

  // ----- what a Buffer means

  /** lastRead: -1 any other read, 0 no read, 1 to 4 the size of the rune read. */
  type ReadOp = x: int | -1 <= x <= 4

  /** stream: every byte written and not dropped; read: how many of them have been
      consumed; off: how many of those still lie in front of the unread part. */
  datatype Queue = Queue(stream: seq<Byte>, read: nat, off: nat, last: ReadOp) {
    ghost predicate Ok() { off <= read <= |stream| }

    function Unread(): seq<Byte>
      requires read <= |stream|
    {
      stream[read..]
    }
  }

  const EMPTY := Queue([], 0, 0, 0)

  /** Reset: what is unread is dropped. */
  function Drop(q: Queue): Queue
    requires q.Ok()
  {
    Queue(q.stream[..q.read], q.read, 0, 0)
  }

  /** A move of the unread part to the front of the array forgets what was consumed. */
  function Append(q: Queue, p: seq<Byte>, moved: bool): Queue {
    Queue(q.stream + p, q.read, if moved then 0 else q.off, 0)
  }

  function Consume(q: Queue, n: nat, last: ReadOp): Queue
    requires q.Ok() && n <= |q.Unread()|
  {
    Queue(q.stream, q.read + n, q.off + n, last)
  }

  function Back(q: Queue, n: nat): Queue
    requires q.Ok() && n <= q.off
  {
    Queue(q.stream, q.read - n, q.off - n, 0)
  }

  datatype Op =
    | OWrite(p: seq<Byte>, moved: bool)
    | OGrow(moved: bool)
    | ORead(n: nat)
    | ONext(n: nat)
    | OReadByte
    | OReadBytes(delim: Byte)
    | OReadRune
    | OUnreadByte
    | OUnreadRune
    | OTruncate(n: nat)

  /** How many bytes an operation takes. */
  function Taken(q: Queue, op: Op): (n: nat)
    requires q.Ok()
    ensures n <= |q.Unread()|
  {
    var u := q.Unread();
    match op
    case ORead(n) => Min(n, |u|)
    case ONext(n) => Min(n, |u|)
    case OReadByte => Min(1, |u|)
    case OReadRune => Decode(u).n
    case OReadBytes(d) => if IndexByte(u, d) < 0 then |u| else IndexByte(u, d) + 1
    case _ => 0
  }

  /** The operations that fail: at the end of the data, or with nothing to take back. */
  predicate Fails(q: Queue, op: Op)
    requires q.Ok()
  {
    match op
    case ORead(n) => q.Unread() == [] && n > 0
    case OReadByte => q.Unread() == []
    case OReadRune => q.Unread() == []
    case OReadBytes(d) => d !in q.Unread()
    case OUnreadByte => q.last == 0
    case OUnreadRune => q.last <= 0
    case OTruncate(n) => n > |q.Unread()|
    case _ => false
  }

  function Do(q: Queue, op: Op): (r: Queue)
    requires q.Ok()
    ensures r.Ok()
  {
    var n := Taken(q, op);
    match op
    case OWrite(p, moved) => Append(q, p, moved)
    case OGrow(moved) =>
      if q.Unread() == [] && q.off != 0 then Drop(q) else Queue(q.stream, q.read, if moved then 0 else q.off, q.last)
    case ORead(_) => if q.Unread() == [] then Drop(q) else Consume(q, n, if n > 0 then -1 else 0)
    case ONext(_) => Consume(q, n, if n > 0 then -1 else 0)
    case OReadByte => if q.Unread() == [] then Drop(q) else Consume(q, 1, -1)
    case OReadRune => if q.Unread() == [] then Drop(q) else Consume(q, n, n)
    case OReadBytes(_) => Consume(q, n, -1)
    case OUnreadByte => if q.last == 0 then q else Back(q, if q.off > 0 then 1 else 0)
    case OUnreadRune => if q.last <= 0 then q else Back(q, if q.off >= q.last then q.last else 0)
    case OTruncate(k) =>
      if k == 0 then Drop(q)
      else if k > |q.Unread()| then Queue(q.stream, q.read, q.off, 0)
      else Queue(q.stream[..q.read + k], q.read, q.off, 0)
  }

  // ----- first in, first out

  function Run(q: Queue, ops: seq<Op>): (r: Queue)
    requires q.Ok()
    ensures r.Ok()
    decreases |ops|
  {
    if ops == [] then q else Run(Do(q, ops[0]), ops[1..])
  }

  /** The bytes the operations return, in order. */
  function Output(q: Queue, ops: seq<Op>): seq<Byte>
    requires q.Ok()
    decreases |ops|
  {
    if ops == [] then []
    else q.Unread()[..Taken(q, ops[0])] + Output(Do(q, ops[0]), ops[1..])
  }

  function Input(ops: seq<Op>): seq<Byte> {
    if ops == [] then [] else (if ops[0].OWrite? then ops[0].p else []) + Input(ops[1..])
  }

  predicate Forward(op: Op) {
    op.OWrite? || op.OGrow? || op.ORead? || op.ONext? || op.OReadByte? || op.OReadRune? || op.OReadBytes?
  }

  lemma DoForward(q: Queue, op: Op)
    requires q.Ok() && Forward(op)
    ensures q.Unread() + (if op.OWrite? then op.p else []) == q.Unread()[..Taken(q, op)] + Do(q, op).Unread()
  {
  }

  /** Over every run of writes and reads, what was unread and then written is what was
      read and what is unread, in order. */
  lemma {:induction false} Fifo(q: Queue, ops: seq<Op>)
    requires q.Ok() && forall i :: 0 <= i < |ops| ==> Forward(ops[i])
    ensures q.Unread() + Input(ops) == Output(q, ops) + Run(q, ops).Unread()
    decreases |ops|
  {
    if ops != [] {
      var q1 := Do(q, ops[0]);
      hide Do, Taken, Forward;
      DoForward(q, ops[0]);
      Fifo(q1, ops[1..]);
      Chain(q.Unread(), if ops[0].OWrite? then ops[0].p else [], q.Unread()[..Taken(q, ops[0])], q1.Unread(),
            Input(ops[1..]), Output(q1, ops[1..]), Run(q1, ops[1..]).Unread());
    }
  }

  lemma Chain(u: seq<Byte>, w: seq<Byte>, t: seq<Byte>, u1: seq<Byte>, i: seq<Byte>, o: seq<Byte>, v: seq<Byte>)
    requires u + w == t + u1 && u1 + i == o + v
    ensures u + (w + i) == (t + o) + v
  {
    assert u + (w + i) == (u + w) + i;
    assert (t + u1) + i == t + (u1 + i);
    assert t + (o + v) == (t + o) + v;
  }

  // ----- taking back

  /** A read that returned bytes and no error, undone byte by byte or rune by rune. */
  lemma UnreadUndoes(q: Queue, op: Op)
    requires q.Ok() && Forward(op) && Taken(q, op) > 0
    ensures var q1 := Do(q, op);
            && !Fails(q1, OUnreadByte)
            && Do(q1, OUnreadByte).Unread() == [q.Unread()[Taken(q, op) - 1]] + q1.Unread()
            && (op.OReadRune? ==> !Fails(q1, OUnreadRune) && Do(q1, OUnreadRune).Unread() == q.Unread())
            && (!op.OReadRune? ==> Fails(q1, OUnreadRune))
  {
    hide IndexByte, Decode;
    var n := Taken(q, op);
    var q1 := Do(q, op);
    assert q1 == Queue(q.stream, q.read + n, q.off + n, if op.OReadRune? then n else -1) by {
      AtMostFour(q.Unread());
    }
    assert q.stream[q.read + n - 1..] == [q.stream[q.read + n - 1]] + q.stream[q.read + n..];
    assert q.Unread()[n - 1] == q.stream[q.read + n - 1];
  }

  predicate IsRead(op: Op) { op.ORead? || op.ONext? || op.OReadByte? || op.OReadRune? || op.OReadBytes? }

  /** UnreadByte is documented to fail unless the last operation was a read that returned
      at least one byte and no error.  It fails exactly then, except after a ReadBytes
      that met the end of the data.  Grow and a failing UnreadRune leave lastRead alone,
      unless Grow found the buffer empty and reset it. */
  lemma UnreadByteLaw(q: Queue, op: Op)
    requires q.Ok()
    ensures Fails(Do(q, op), OUnreadByte) <==>
            if op.OGrow? then Fails(q, OUnreadByte) || (q.Unread() == [] && q.off != 0)
            else if op.OUnreadRune? && Fails(q, op) then Fails(q, OUnreadByte)
            else !(IsRead(op) && Taken(q, op) > 0 && !Fails(q, op)) && !(op.OReadBytes? && Fails(q, op))
  {
  }

  /** The exception: an empty ReadBytes at the end, and yet UnreadByte takes back a byte. */
  lemma UnreadAfterEmptyRead()
    ensures var q := Do(Do(EMPTY, OWrite([7], false)), OReadByte);
            && Taken(q, OReadBytes(0)) == 0 && Fails(q, OReadBytes(0))
            && !Fails(Do(q, OReadBytes(0)), OUnreadByte)
            && Do(Do(q, OReadBytes(0)), OUnreadByte).Unread() == [7]
  {
    assert Do(EMPTY, OWrite([7], false)) == Queue([7], 0, 0, 0);
    assert Do(Queue([7], 0, 0, 0), OReadByte) == Queue([7], 1, 1, -1);
    assert Do(Queue([7], 1, 1, -1), OReadBytes(0)) == Queue([7], 1, 1, -1);
  }

  /** After a Grow that moved the data, UnreadByte reports success and takes back nothing. */
  lemma UnreadAfterGrow()
    ensures var q := Do(Do(Do(EMPTY, OWrite([7, 8], false)), OReadByte), OGrow(true));
            !Fails(q, OUnreadByte) && Do(q, OUnreadByte).Unread() == q.Unread() == [8]
  {
  }

  /** Exactly when a successful UnreadByte puts a byte back. */
  lemma UnreadByteEffect(q: Queue)
    requires q.Ok() && !Fails(q, OUnreadByte)
    ensures q.off > 0 <==> Do(q, OUnreadByte).Unread() != q.Unread()
    ensures q.off > 0 ==> Do(q, OUnreadByte).Unread() == [q.stream[q.read - 1]] + q.Unread()
  {
    if q.off > 0 {
      assert |Do(q, OUnreadByte).Unread()| == |q.Unread()| + 1;
    }
  }

  // ----- the price of moving

  /** What grow has cost: slid, bytes moved against bytes consumed before them; grown,
      bytes moved into a much larger array; asked, bytes ever requested of grow; mark,
      the value of read at the last move. */
  datatype Meter = Meter(slid: nat, grown: nat, asked: nat, mark: nat)

  predicate Paid(m: Meter, read: nat, off: nat, capacity: nat) {
    && m.mark + off <= read <= m.asked
    && m.slid <= 3 * (read - off)
    && m.grown <= 2 * capacity && m.grown <= 5 * m.asked
  }

  /** The total moved is at most eight times what was asked for, in every run. */
  lemma MovedBound(m: Meter, read: nat, off: nat, capacity: nat)
    requires Paid(m, read, off, capacity)
    ensures m.slid + m.grown <= 8 * m.asked
  {
  }

  /** A slide moves no more than has been consumed since the last move. */
  function Slide(m: Meter, unread: nat, n: nat, read: nat): Meter {
    Meter(m.slid + unread, m.grown, m.asked + n, read)
  }

  lemma SlidePaid(m: Meter, read: nat, off: nat, capacity: nat, unread: nat, n: nat)
    requires Paid(m, read, off, capacity)
    requires off + unread <= capacity < off + unread + n && n <= capacity / 2 - unread
    ensures unread < off && unread <= read - m.mark && Paid(Slide(m, unread, n, read), read, 0, capacity)
    ensures Slide(m, unread, n, read).slid + Slide(m, unread, n, read).grown == m.slid + m.grown + unread
    ensures Slide(m, unread, n, read).asked == m.asked + n
  {
  }

  /** A new array of at least m + off + n and at least twice the part kept. */
  function Regrow(m: Meter, unread: nat, n: nat, read: nat, off: nat, capacity: nat): Meter
  {
    if 4 * off >= capacity then Meter(m.slid + unread, m.grown, m.asked + n, read)
    else Meter(m.slid, m.grown + unread, m.asked + n, read)
  }

  lemma RegrowPaid(m: Meter, read: nat, off: nat, capacity: nat, unread: nat, n: nat, larger: nat)
    requires Paid(m, read, off, capacity) && read + unread <= m.asked
    requires off + unread <= capacity < off + unread + n && n > capacity / 2 - unread
    requires larger >= unread + off + n && larger >= 2 * (capacity - off)
    ensures var m2 := Regrow(m, unread, n, read, off, capacity);
            Paid(m2, read, 0, larger) && m2.slid + m2.grown == m.slid + m.grown + unread && m2.asked == m.asked + n
  {
  }

  /** grow gives up: sliding would not do, and a new capacity would not fit an int. */
  predicate TooLarge(capacity: nat, unread: nat, n: nat) {
    n > capacity / 2 - unread && capacity > MAX_INT - capacity - n
  }

  /** Whatever capacities the allocator chose, that takes many bytes. */
  lemma TooLargeNeeds(capacity: nat, unread: nat, n: nat)
    requires TooLarge(capacity, unread, n)
    ensures 4 * unread + 5 * n + 2 > MAX_INT
  {
  }

  lemma GrowEffect(q: Queue, moved: bool)
    requires q.Ok()
    ensures moved ==> Do(q, OGrow(moved)).off == 0
    ensures Do(q, OGrow(moved)).off != q.off && !moved ==> q.Unread() == []
  {
  }

  /** A move copies the unread bytes, once. */
  ghost function Cost(q: Queue, copied: nat, moved: bool): nat
    requires q.read <= |q.stream|
  {
    copied + if moved then |q.Unread()| else 0
  }

  // ----- the buffer

  class Buffer {
    var data: array<Byte>      // the backing array; its length is cap(buf)
    var len: nat               // len(buf)
    var off: nat
    var lastRead: ReadOp
    var isNil: bool            // buf == nil
    ghost var stream: seq<Byte>
    ghost var read: nat
    ghost var meter: Meter
    ghost var copied: nat      // bytes that grow has moved so far

    /** data[..upTo] is the tail of the stream, from the consumed bytes still kept. */
    ghost predicate Keeps(upTo: nat)
      reads this, data
    {
      && off <= upTo <= data.Length && off <= read <= |stream| <= meter.asked
      && upTo == off + |stream| - read && data[..upTo] == stream[read - off..]
      && (isNil ==> data.Length == 0)
    }

    ghost predicate Valid()
      reads this, data
      ensures Valid() ==> off <= read <= |stream| && off <= len <= data.Length
    {
      Keeps(len) && Paying()
    }

    /** All that was ever copied is accounted for. */
    ghost predicate Paying()
      reads this
    {
      Paid(meter, read, off, data.Length) && copied == meter.slid + meter.grown
    }

    ghost function Q(): Queue
      reads this
    {
      Queue(stream, read, off, lastRead)
    }

    /** The zero value. */
    constructor ()
      ensures Valid() && fresh(data) && Q() == EMPTY && meter == Meter(0, 0, 0, 0) && copied == 0
    {
      data := new Byte[0];
      len, off, lastRead, isNil := 0, 0, 0, true;
      stream, read, meter, copied := [], 0, Meter(0, 0, 0, 0), 0;
    }

    method Reset()
      requires Valid()
      modifies this
      ensures Valid() && data == old(data) && data[..] == old(data[..])
      ensures Q() == Drop(old(Q())) && meter == old(meter) && copied == old(copied) && len == 0 && isNil == old(isNil)
    {
      len, off, lastRead := 0, 0, 0;
      stream := stream[..read];
    }

    method TryGrowByReslice(n: nat) returns (i: nat, ok: bool)
      requires Valid()
      modifies this`len
      ensures ok <==> n <= data.Length - old(len)
      ensures ok ==> i == old(len) && len == i + n && Keeps(i)
      ensures !ok ==> len == old(len)
    {
      if n <= data.Length - len {
        i, ok, len := len, true, len + n;
      } else {
        i, ok := 0, false;
      }
    }

    /** copy(b.buf, b.buf[b.off:]) */
    method MoveDown(m: nat)
      requires off + m <= data.Length
      modifies data, this`copied
      ensures data[..m] == old(data[off..off + m]) && copied == old(copied) + m
    {
      copied := copied + m;
      forall i | 0 <= i < m {
        data[i] := data[off + i];
      }
    }

    /** growSlice(b.buf[b.off:], n); the allocator may round the capacity up. */
    method GrowSlice(m: nat, n: nat) returns (b2: array<Byte>)
      requires off + m <= data.Length
      modifies this`copied
      ensures copied == old(copied) + m
      ensures fresh(b2) && b2.Length >= m + n && b2.Length >= 2 * (data.Length - off)
      ensures b2[..m] == data[off..off + m]
    {
      var c: nat := m + n;
      if c < 2 * (data.Length - off) {
        c := 2 * (data.Length - off);
      }
      var rounding: nat :| rounding >= 0;
      b2 := new Byte[c + rounding];
      forall i | 0 <= i < m {
        b2[i] := data[off + i];
      }
      copied := copied + m;
    }

    /** A slice of n more bytes to write at i; only ErrTooLarge makes it fail.  moved
        says whether the unread part was copied, which the meter records. */
    method GrowBy(n: nat) returns (i: nat, ok: bool, ghost moved: bool)
      requires Valid()
      modifies this, data
      ensures data == old(data) || fresh(data)
      ensures stream == old(stream) && read == old(read) && (off == old(off) || off == 0)
      ensures lastRead == old(lastRead) || lastRead == 0
      ensures Q() == Do(old(Q()), OGrow(moved))
      ensures ok ==> Keeps(i) && len == i + n <= data.Length && Paying()
      ensures ok ==> meter.asked == old(meter.asked) + n
      ensures !ok ==> Valid() && !moved && meter == old(meter) && TooLarge(old(data.Length), old(|stream| - read), n)
      ensures copied == old(copied) + if moved then old(|stream| - read) else 0
      ensures moved && data == old(data) ==> old(|stream| - read) <= old(read - meter.mark)
    {
      hide Slide, Regrow, TooLarge;
      var m := len - off;
      if m == 0 && off != 0 {
        Reset();
      }
      moved := false;
      i, ok := TryGrowByReslice(n);
      if ok {
        meter := meter.(asked := meter.asked + n);
        return;
      }
      if isNil && n <= SMALL_BUFFER_SIZE {
        data, isNil, len := new Byte[SMALL_BUFFER_SIZE], false, n;
        meter := meter.(asked := meter.asked + n);
        return 0, true, false;
      }
      i, ok, moved := GrowSlow(m, n);
    }

    /** copy(b.buf, b.buf[b.off:]), and off and len follow. */
    method SlideDown(m: nat, n: nat)
      requires Valid() && m == len - off && n > data.Length - len && n <= data.Length / 2 - m
      modifies this`off, this`len, this`meter, this`copied, data
      ensures off == 0 && len == m + n <= data.Length && Keeps(m) && Paying()
      ensures meter.asked == old(meter.asked) + n
      ensures copied == old(copied) + m
      ensures m <= old(read - meter.mark)
    {
      hide Paid, Slide;
      Front();
      SlidePaid(meter, read, off, data.Length, m, n);
      meter := Slide(meter, m, n, read);
      MoveDown(m);
      off, len := 0, m + n;
    }

    /** b.buf = growSlice(b.buf[b.off:], b.off+n), and off and len follow. */
    method Reallocate(m: nat, n: nat)
      requires Valid() && m == len - off && n > data.Length - len && n > data.Length / 2 - m
      modifies this`off, this`len, this`meter, this`copied, this`data, this`isNil
      ensures fresh(data) && off == 0 && len == m + n <= data.Length && Keeps(m) && Paying()
      ensures meter.asked == old(meter.asked) + n
      ensures copied == old(copied) + m
    {
      hide Paid, Regrow;
      Front();
      var b2 := GrowSlice(m, off + n);
      RegrowPaid(meter, read, off, data.Length, m, n, b2.Length);
      meter := Regrow(meter, m, n, read, off, data.Length);
      data, isNil := b2, false;
      off, len := 0, m + n;
    }

    /** The part of grow that moves data. */
    method GrowSlow(m: nat, n: nat) returns (i: nat, ok: bool, ghost moved: bool)
      requires Valid() && m == len - off && n > data.Length - len && !(m == 0 && off != 0)
      modifies this, data
      ensures data == old(data) || fresh(data)
      ensures stream == old(stream) && read == old(read) && lastRead == old(lastRead)
      ensures off == if ok then 0 else old(off)
      ensures ok == moved
      ensures ok ==> Keeps(i) && len == i + n <= data.Length && Paying()
      ensures ok ==> meter.asked == old(meter.asked) + n
      ensures !ok ==> Valid() && TooLarge(old(data.Length), old(|stream| - read), n) && meter == old(meter)
      ensures copied == old(copied) + if moved then m else 0
      ensures moved && data == old(data) ==> m <= old(read - meter.mark)
    {
      hide Paid;
      var c := data.Length;
      if n <= c / 2 - m {
        SlideDown(m, n);
      } else if c > MAX_INT - c - n {
        return 0, false, false;
      } else {
        Reallocate(m, n);
      }
      return m, true, true;
    }

    /** Grow: nothing changes but the room. */
    method Grow(n: nat) returns (ok: bool, ghost moved: bool)
      requires Valid()
      modifies this, data
      ensures Valid() && (data == old(data) || fresh(data))
      ensures Q() == Do(old(Q()), OGrow(moved)) && copied == Cost(old(Q()), old(copied), moved)
      ensures ok ==> data.Length - len >= n && meter.asked == old(meter.asked) + n
      ensures !ok ==> !moved && meter == old(meter) && TooLarge(old(data.Length), old(|stream| - read), n)
    {
      var m: nat;
      m, ok, moved := GrowBy(n);
      if ok { len := m; }
    }

    /** copy(b.buf[m:], p) */
    method Fill(m: nat, p: seq<Byte>)
      requires m + |p| <= data.Length
      modifies data
      ensures data[..m + |p|] == old(data[..m]) + p
    {
      forall i | 0 <= i < |p| {
        data[m + i] := p[i];
      }
    }

    /** The first lines of every write: room for n bytes at m.  moved says whether the
        unread part, be it empty, has gone to the front of the array. */
    method Room(n: nat) returns (m: nat, ok: bool, ghost moved: bool)
      requires Valid()
      modifies this, data
      ensures data == old(data) || fresh(data)
      ensures stream == old(stream) && read == old(read) && lastRead == 0
      ensures ok ==> Keeps(m) && len == m + n <= data.Length && Paying()
      ensures ok ==> meter.asked == old(meter.asked) + n && off == if moved then 0 else old(off)
      ensures !ok ==> Valid() && !moved && meter == old(meter) && TooLarge(old(data.Length), old(|stream| - read), n)
      ensures copied == Cost(old(Q()), old(copied), moved)
    {
      hide Paid, Do;
      lastRead, moved := 0, false;
      m, ok := TryGrowByReslice(n);
      if ok {
        MoreAsked(meter, read, off, data.Length, n);
        meter := meter.(asked := meter.asked + n);
      } else {
        ghost var q := Q();
        m, ok, moved := GrowBy(n);
        GrowEffect(q, moved);
        moved := ok && (moved || off != old(off));
      }
    }

    /** copy(b.buf[m:], p), and buf ends there. */
    method Commit(m: nat, p: seq<Byte>)
      requires Keeps(m) && m + |p| <= data.Length && Paying() && |stream| + |p| <= meter.asked
      modifies this`len, this`stream, data
      ensures Valid() && stream == old(stream) + p
    {
      hide Paid;
      Fill(m, p);
      Extended(stream, p, read - off);
      len, stream := m + |p|, stream + p;
    }

    method Write(p: seq<Byte>) returns (n: nat, ok: bool, ghost moved: bool)
      requires Valid()
      modifies this, data
      ensures Valid() && (data == old(data) || fresh(data))
      ensures ok ==> n == |p| && Q() == Append(old(Q()), p, moved)
      ensures ok ==> meter.asked == old(meter.asked) + |p|
      ensures !ok ==> n == 0 && !moved && Q() == old(Q()).(off := off, last := 0) && meter == old(meter)
      ensures !ok ==> TooLarge(old(data.Length), old(|stream| - read), |p|)
      ensures copied == Cost(old(Q()), old(copied), moved)
    {
      hide Paid;
      var m: nat;
      m, ok, moved := Room(|p|);
      if !ok { return 0, false, false; }
      Commit(m, p);
      n := |p|;
    }

    method WriteByte(c: Byte) returns (ok: bool, ghost moved: bool)
      requires Valid()
      modifies this, data
      ensures Valid() && (data == old(data) || fresh(data))
      ensures ok ==> Q() == Append(old(Q()), [c], moved) && meter.asked == old(meter.asked) + 1
      ensures !ok ==> !moved && Q() == old(Q()).(off := off, last := 0) && meter == old(meter)
      ensures !ok ==> TooLarge(old(data.Length), old(|stream| - read), 1)
      ensures copied == Cost(old(Q()), old(copied), moved)
    {
      hide Paid;
      var m: nat;
      m, ok, moved := Room(1);
      if !ok { return false, false; }
      Commit(m, [c]);
    }

    /** Four bytes of room, of which the encoding of r takes as many as it needs. */
    method WriteRune(r: int) returns (n: nat, ok: bool, ghost moved: bool)
      requires Valid()
      modifies this, data
      ensures Valid() && (data == old(data) || fresh(data))
      ensures ok ==> n == |Encode(r)| && Q() == Append(old(Q()), Encode(r), moved)
      ensures ok ==> meter.asked == old(meter.asked) + if 0 <= r < RUNE_SELF then 1 else 4
      ensures !ok ==> n == 0 && !moved && Q() == old(Q()).(off := off, last := 0) && meter == old(meter)
      ensures !ok ==> TooLarge(old(data.Length), old(|stream| - read), if 0 <= r < RUNE_SELF then 1 else 4)
      ensures copied == Cost(old(Q()), old(copied), moved)
    {
      hide Paid, Encode;
      if 0 <= r < RUNE_SELF {
        ok, moved := WriteByte(r);
        EncodeAscii(r);
        n := if ok then 1 else 0;
        return;
      }
      var m: nat;
      m, ok, moved := Room(4);
      if !ok { return 0, false, false; }
      Commit(m, Encode(r));
      n := |Encode(r)|;
    }

    /** b.off += n */
    method Advance(n: nat, last: ReadOp)
      requires Valid() && n <= len - off
      modifies this`off, this`read, this`lastRead
      ensures Valid() && Q() == Consume(old(Q()), n, last)
    {
      hide Paid;
      ConsumePaid(meter, read, off, data.Length, n);
      off, read, lastRead := off + n, read + n, last;
    }

    method Read(p: array<Byte>) returns (n: nat, eof: bool)
      requires Valid() && p != data
      modifies this, p
      ensures Valid() && data == old(data) && meter == old(meter) && copied == old(copied)
      ensures Q() == Do(old(Q()), ORead(p.Length)) && eof == Fails(old(Q()), ORead(p.Length))
      ensures n == Taken(old(Q()), ORead(p.Length)) && p[..n] == old(Q().Unread())[..n] && p[n..] == old(p[n..])
    {
      hide Paid, Do, Taken, Fails;
      DoRead(Q(), p.Length);
      Front();
      lastRead := 0;
      if len <= off {
        Reset();
        return 0, p.Length != 0;
      }
      n, eof := Min(p.Length, len - off), false;
      CopyOut(p, n);
      Advance(n, if n > 0 then -1 else 0);
    }

    /** copy(p, b.buf[b.off:]) */
    method CopyOut(p: array<Byte>, n: nat)
      requires Valid() && p != data && n <= len - off && n <= p.Length
      modifies p
      ensures p[..n] == data[off..len][..n] && p[n..] == old(p[n..])
    {
      forall i | 0 <= i < n {
        p[i] := data[off + i];
      }
    }

    lemma Front()
      requires Valid()
      ensures data[off..len] == Q().Unread() && len - off == |Q().Unread()|
    {
      hide Paid;
      assert data[off..len] == data[..len][off..];
    }

    /** The unread bytes, copied. */
    method Bytes() returns (s: seq<Byte>)
      requires Valid()
      ensures s == Q().Unread()
    {
      Front();
      s := data[off..len];
    }

    lemma Bounded()
      requires Valid()
      ensures copied <= 8 * meter.asked && |Q().Unread()| <= meter.asked
    {
      MovedBound(meter, read, off, data.Length);
    }

    method Next(n: nat) returns (taken: seq<Byte>)
      requires Valid()
      modifies this
      ensures Valid() && data == old(data) && meter == old(meter) && copied == old(copied)
      ensures Q() == Do(old(Q()), ONext(n)) && taken == old(Q().Unread())[..Taken(old(Q()), ONext(n))]
    {
      hide Paid, Do, Taken, Fails;
      DoNext(Q(), n);
      Front();
      var k := Min(n, len - off);
      taken := data[off..len][..k];
      Advance(k, if k > 0 then -1 else 0);
    }

    method ReadByte() returns (c: Byte, eof: bool)
      requires Valid()
      modifies this
      ensures Valid() && data == old(data) && meter == old(meter) && copied == old(copied)
      ensures Q() == Do(old(Q()), OReadByte) && eof == Fails(old(Q()), OReadByte)
      ensures !eof ==> old(Q().Unread())[0] == c
    {
      hide Paid;
      Front();
      if len <= off {
        Reset();
        return 0, true;
      }
      c, eof := data[off], false;
      Advance(1, -1);
    }

    method ReadRune() returns (r: int, size: nat, eof: bool)
      requires Valid()
      modifies this
      ensures Valid() && data == old(data) && meter == old(meter) && copied == old(copied)
      ensures Q() == Do(old(Q()), OReadRune) && eof == Fails(old(Q()), OReadRune) && (eof ==> size == 0)
      ensures !eof ==> Decoded(r, size) == Decode(old(Q().Unread()))
    {
      hide Paid, Decode;
      Front();
      if len <= off {
        Reset();
        return 0, 0, true;
      }
      var d := Decode(data[off..len]);
      r, size, eof := d.r, d.n, false;
      AtMostFour(data[off..len]);
      Advance(size, size);
    }

    /** readSlice, with the copy that ReadBytes and ReadString make of it. */
    method ReadBytes(delim: Byte) returns (line: seq<Byte>, eof: bool)
      requires Valid()
      modifies this
      ensures Valid() && data == old(data) && meter == old(meter) && copied == old(copied)
      ensures Q() == Do(old(Q()), OReadBytes(delim)) && eof == Fails(old(Q()), OReadBytes(delim))
      ensures line == old(Q().Unread())[..Taken(old(Q()), OReadBytes(delim))]
    {
      hide Paid, Do, Taken, Fails;
      DoReadBytes(Q(), delim);
      Front();
      var i := IndexByte(data[off..len], delim);
      var n := if i < 0 then len - off else i + 1;
      eof := i < 0;
      line := data[off..len][..n];
      Advance(n, -1);
    }

    /** b.off -= n */
    method Retreat(n: nat)
      requires Valid() && n <= off
      modifies this`off, this`read, this`lastRead
      ensures Valid() && Q() == Back(old(Q()), n)
    {
      off, read, lastRead := off - n, read - n, 0;
    }

    method UnreadByte() returns (failed: bool)
      requires Valid()
      modifies this
      ensures Valid() && data == old(data) && meter == old(meter) && copied == old(copied)
      ensures Q() == Do(old(Q()), OUnreadByte) && failed == Fails(old(Q()), OUnreadByte)
    {
      hide Paid;
      if lastRead == 0 { return true; }
      Retreat(if off > 0 then 1 else 0);
      return false;
    }

    method UnreadRune() returns (failed: bool)
      requires Valid()
      modifies this
      ensures Valid() && data == old(data) && meter == old(meter) && copied == old(copied)
      ensures Q() == Do(old(Q()), OUnreadRune) && failed == Fails(old(Q()), OUnreadRune)
    {
      hide Paid;
      if lastRead <= 0 { return true; }
      Retreat(if off >= lastRead then lastRead else 0);
      return false;
    }

    /** Panics when n is out of range. */
    method Truncate(n: int) returns (panicked: bool)
      requires Valid()
      modifies this
      ensures Valid() && data == old(data) && meter == old(meter) && copied == old(copied)
      ensures panicked <==> n < 0 || Fails(old(Q()), OTruncate(n))
      ensures n >= 0 ==> Q() == Do(old(Q()), OTruncate(n))
    {
      hide Paid;
      if n == 0 {
        Reset();
        return false;
      }
      lastRead := 0;
      if n < 0 || n > len - off { return true; }
      len := off + n;
      stream := stream[..read + n];
      return false;
    }
  }

  // ----- runs of a buffer

  datatype Job =
    | Put(p: seq<Byte>)
    | PutByte(c: Byte)
    | PutRune(r: int)
    | Room(n: nat)
    | Get(n: nat)          // Read into a slice of n bytes
    | GetNext(n: nat)
    | GetByte
    | GetRune
    | GetThrough(delim: Byte)

  function Written(jobs: seq<Job>): seq<Byte> {
    if jobs == [] then [] else Written(jobs[..|jobs| - 1]) + Input1(jobs[|jobs| - 1])
  }

  function Input1(j: Job): seq<Byte> {
    match j
    case Put(p) => p
    case PutByte(c) => [c]
    case PutRune(r) => Encode(r)
    case _ => []
  }

  /** Bytes asked of grow: WriteRune asks for four when it may need more than one. */
  function Asked(jobs: seq<Job>): nat {
    if jobs == [] then 0 else Asked(jobs[..|jobs| - 1]) + Asked1(jobs[|jobs| - 1])
  }

  function Asked1(j: Job): nat {
    match j
    case Put(p) => |p|
    case PutByte(_) => 1
    case PutRune(r) => if 0 <= r < RUNE_SELF then 1 else 4
    case Room(n) => n
    case _ => 0
  }

  /** Without Grow, what is asked for is what is written, or twice as much at most where
      runes are written. */
  lemma {:induction false} AskedIsWritten(jobs: seq<Job>)
    requires forall i :: 0 <= i < |jobs| ==> !jobs[i].Room?
    ensures |Written(jobs)| <= Asked(jobs) <= 2 * |Written(jobs)|
    ensures (forall i :: 0 <= i < |jobs| ==> !jobs[i].PutRune?) ==> Asked(jobs) == |Written(jobs)|
  {
    hide Encode;
    if jobs != [] {
      AskedIsWritten(jobs[..|jobs| - 1]);
    }
  }

  /** The operation that each job amounts to. */
  predicate Does(j: Job, op: Op) {
    match j
    case Put(p) => op.OWrite? && op.p == p
    case PutByte(c) => op.OWrite? && op.p == [c]
    case PutRune(r) => op.OWrite? && op.p == Encode(r)
    case Room(_) => op.OGrow?
    case Get(n) => op == ORead(n)
    case GetNext(n) => op == ONext(n)
    case GetByte => op == OReadByte
    case GetRune => op == OReadRune
    case GetThrough(delim) => op == OReadBytes(delim)
  }

  ghost predicate AllDone(jobs: seq<Job>, ops: seq<Op>) {
    |ops| <= |jobs| && forall i :: 0 <= i < |ops| ==> Does(jobs[i], ops[i])
  }

  /** The bytes that the operations copied while growing. */
  function Moved(q: Queue, ops: seq<Op>): nat
    requires q.Ok()
    decreases |ops|
  {
    if ops == [] then 0 else Moved1(q, ops[0]) + Moved(Do(q, ops[0]), ops[1..])
  }

  function Moved1(q: Queue, op: Op): nat
    requires q.Ok()
  {
    if (op.OWrite? || op.OGrow?) && op.moved then |q.Unread()| else 0
  }

  /** One job on a buffer: the bytes it returns, and the operation it amounts to. */
  method Perform(b: Buffer, j: Job) returns (taken: seq<Byte>, ok: bool, ghost op: Op)
    requires b.Valid()
    modifies b, b.data
    ensures b.Valid() && (b.data == old(b.data) || fresh(b.data))
    ensures ok ==> Does(j, op) && b.Q() == Do(old(b.Q()), op) && b.meter.asked == old(b.meter.asked) + Asked1(j)
    ensures ok ==> taken == old(b.Q().Unread())[..Taken(old(b.Q()), op)]
    ensures ok ==> b.copied == old(b.copied) + Moved1(old(b.Q()), op)
    ensures !ok ==> b.Q().Unread() == old(b.Q().Unread()) && b.meter == old(b.meter) && b.copied == old(b.copied)
    ensures !ok ==> TooLarge(old(b.data.Length), |old(b.Q().Unread())|, Asked1(j))
  {
    if j.Put? || j.PutByte? || j.PutRune? || j.Room? {
      taken := [];
      ok, op := PerformPut(b, j);
    } else {
      ok := true;
      taken, op := PerformGet(b, j);
    }
  }

  method PerformPut(b: Buffer, j: Job) returns (ok: bool, ghost op: Op)
    requires b.Valid() && (j.Put? || j.PutByte? || j.PutRune? || j.Room?)
    modifies b, b.data
    ensures b.Valid() && (b.data == old(b.data) || fresh(b.data))
    ensures ok ==> Does(j, op) && b.Q() == Do(old(b.Q()), op) && b.meter.asked == old(b.meter.asked) + Asked1(j)
    ensures ok ==> Taken(old(b.Q()), op) == 0 && b.copied == old(b.copied) + Moved1(old(b.Q()), op)
    ensures !ok ==> b.Q().Unread() == old(b.Q().Unread()) && b.meter == old(b.meter) && b.copied == old(b.copied)
    ensures !ok ==> TooLarge(old(b.data.Length), |old(b.Q().Unread())|, Asked1(j))
  {
    hide Encode, Paid, TooLarge;
    ghost var moved;
    match j
    case Put(p) =>
      var n;
      n, ok, moved := b.Write(p);
      op := OWrite(p, moved);
    case PutByte(c) =>
      ok, moved := b.WriteByte(c);
      op := OWrite([c], moved);
    case PutRune(r) =>
      var n;
      n, ok, moved := b.WriteRune(r);
      op := OWrite(Encode(r), moved);
    case Room(n) =>
      ok, moved := b.Grow(n);
      op := OGrow(moved);
  }

  method PerformGet(b: Buffer, j: Job) returns (taken: seq<Byte>, ghost op: Op)
    requires b.Valid() && !(j.Put? || j.PutByte? || j.PutRune? || j.Room?)
    modifies b, b.data
    ensures b.Valid() && b.data == old(b.data) && b.meter == old(b.meter) && b.copied == old(b.copied)
    ensures Does(j, op) && !op.OWrite? && !op.OGrow? && b.Q() == Do(old(b.Q()), op)
    ensures taken == old(b.Q().Unread())[..Taken(old(b.Q()), op)]
  {
    hide Decode, Paid, Do, Taken, Fails;
    b.Front();
    var front := b.data[b.off..b.len];
    TakenOne(b.Q());
    match j
    case Get(n) =>
      DoRead(b.Q(), n);
      var p := new Byte[n];
      var k, eof := b.Read(p);
      taken, op := p[..k], ORead(n);
    case GetNext(n) =>
      taken := b.Next(n);
      op := ONext(n);
    case GetByte =>
      var c, eof := b.ReadByte();
      taken, op := if eof then [] else [c], OReadByte;
    case GetRune =>
      var r, size, eof := b.ReadRune();
      taken, op := front[..size], OReadRune;
    case GetThrough(delim) =>
      var eof;
      taken, eof := b.ReadBytes(delim);
      op := OReadBytes(delim);
  }

  lemma TakenOne(q: Queue)
    requires q.Ok()
    ensures Taken(q, OReadByte) == (if Fails(q, OReadByte) then 0 else 1) && (Fails(q, OReadByte) <==> q.Unread() == [])
    ensures Taken(q, OReadRune) == Decode(q.Unread()).n && (Fails(q, OReadRune) <==> q.Unread() == [])
  {
  }

  /** One more operation at the end of a run. */
  lemma {:induction false} RunLast(q: Queue, ops: seq<Op>, op: Op)
    requires q.Ok()
    ensures var r := Run(q, ops);
            && Run(q, ops + [op]) == Do(r, op) && Output(q, ops + [op]) == Output(q, ops) + r.Unread()[..Taken(r, op)]
            && Moved(q, ops + [op]) == Moved(q, ops) + Moved1(r, op)
    decreases |ops|
  {
    hide Do, Taken, Moved1;
    if ops == [] {
      assert ops + [op] == [op] && [op][1..] == [];
      assert Output(q, []) == [] && Run(q, []) == q;
    } else {
      var q1 := Do(q, ops[0]);
      assert (ops + [op])[0] == ops[0] && (ops + [op])[1..] == ops[1..] + [op];
      RunLast(q1, ops[1..], op);
      Cat(q.Unread()[..Taken(q, ops[0])], Output(q1, ops[1..]),
          Run(q1, ops[1..]).Unread()[..Taken(Run(q1, ops[1..]), op)]);
    }
  }

  lemma JobsLast(jobs: seq<Job>, done: nat)
    requires done < |jobs|
    ensures Written(jobs[..done + 1]) == Written(jobs[..done]) + Input1(jobs[done])
    ensures Asked(jobs[..done + 1]) == Asked(jobs[..done]) + Asked1(jobs[done])
  {
    hide Input1, Asked1;
    assert jobs[..done + 1][..done] == jobs[..done];
  }

  lemma DoesForward(j: Job, op: Op)
    requires Does(j, op)
    ensures Forward(op) && Input1(j) == if op.OWrite? then op.p else []
  {
  }

  lemma {:induction false} JobsInput(jobs: seq<Job>, ops: seq<Op>)
    requires AllDone(jobs, ops)
    ensures Written(jobs[..|ops|]) == Input(ops)
    decreases |ops|
  {
    if ops == [] {
      assert jobs[..0] == [];
    } else {
      hide Written, Input, Does;
      var n := |ops| - 1;
      JobsInput(jobs, ops[..n]);
      JobsLast(jobs, n);
      DoesForward(jobs[n], ops[n]);
      InputLast(ops[..n], ops[n]);
      assert ops[..n] + [ops[n]] == ops;
    }
  }

  /** From an empty buffer, what was written is what is returned and what is left. */
  lemma JobsFifo(jobs: seq<Job>, ops: seq<Op>)
    requires AllDone(jobs, ops)
    ensures Written(jobs[..|ops|]) == Output(EMPTY, ops) + Run(EMPTY, ops).Unread()
  {
    hide Written, Input, Does, Forward, Run, Output;
    JobsInput(jobs, ops);
    forall i | 0 <= i < |ops| ensures Forward(ops[i]) { DoesForward(jobs[i], ops[i]); }
    Fifo(EMPTY, ops);
    assert [] + Input(ops) == Input(ops);
  }

  lemma {:induction false} InputLast(ops: seq<Op>, op: Op)
    ensures Input(ops + [op]) == Input(ops) + if op.OWrite? then op.p else []
  {
    if ops != [] {
      assert (ops + [op])[0] == ops[0] && (ops + [op])[1..] == ops[1..] + [op];
      InputLast(ops[1..], op);
    }
  }

  /** Any jobs on any buffer, up to one refused: what they return and leave is what the
      operations on the queue return and leave, and the copying is accounted for. */
  method Drive(b: Buffer, jobs: seq<Job>) returns (out: seq<Byte>, ghost ops: seq<Op>)
    requires b.Valid()
    modifies b, b.data
    ensures b.Valid() && (b.data == old(b.data) || fresh(b.data)) && AllDone(jobs, ops)
    ensures out == Output(old(b.Q()), ops) && b.Q().Unread() == Run(old(b.Q()), ops).Unread()
    ensures |ops| == |jobs| ==> b.Q() == Run(old(b.Q()), ops)
    ensures |ops| < |jobs| ==> 4 * |b.Q().Unread()| + 5 * Asked1(jobs[|ops|]) + 2 > MAX_INT
    ensures b.meter.asked == old(b.meter.asked) + Asked(jobs[..|ops|])
    ensures b.copied == old(b.copied) + Moved(old(b.Q()), ops) <= 8 * b.meter.asked
  {
    hide Do, Taken, Does, TooLarge, Asked, Asked1, Run, Output, Moved, Moved1, Buffer.Valid;
    out, ops := [], [];
    var done: nat := 0;
    ghost var q0 := b.Q();
    NoneDone(q0);
    while done < |jobs|
      invariant done == |ops| <= |jobs| && b.Valid() && (b.data == old(b.data) || fresh(b.data)) && AllDone(jobs, ops)
      invariant b.Q() == Run(q0, ops) && out == Output(q0, ops)
      invariant b.meter.asked == old(b.meter.asked) + Asked(jobs[..done])
      invariant b.copied == old(b.copied) + Moved(q0, ops)
    {
      ghost var capacity, unread := b.data.Length, |b.Q().Unread()|;
      var taken, ok, op := Perform(b, jobs[done]);
      if !ok {
        TooLargeNeeds(capacity, unread, Asked1(jobs[done]));
        break;
      }
      RunLast(q0, ops, op);
      JobsLast(jobs, done);
      out := out + taken;
      ops := ops + [op];
      done := done + 1;
    }
    b.Bounded();
  }

  lemma NoneDone(q: Queue)
    requires q.Ok()
    ensures Run(q, []) == q && Output(q, []) == [] && Moved(q, []) == 0 && Asked([]) == 0
  {
  }

  /** Any jobs on a new buffer.  The bytes written are those returned and those left, in
      order; growing copied no more than eight times what was asked for; and every job is
      done, unless so much was asked for that the capacity might not fit an int. */
  method DriveNew(jobs: seq<Job>) returns (out: seq<Byte>, left: seq<Byte>, ghost ops: seq<Op>)
    ensures AllDone(jobs, ops) && out == Output(EMPTY, ops) && left == Run(EMPTY, ops).Unread()
    ensures Written(jobs[..|ops|]) == out + left
    ensures |ops| < |jobs| ==> 5 * Asked(jobs[..|ops| + 1]) + 2 > MAX_INT
    ensures Moved(EMPTY, ops) <= 8 * Asked(jobs[..|ops|])
  {
    hide *;
    var b := new Buffer();
    out, ops := Drive(b, jobs);
    left := b.Bytes();
    JobsFifo(jobs, ops);
    if |ops| < |jobs| { JobsLast(jobs, |ops|); }
    b.Bounded();
  }

  lemma AtMostFour(s: seq<Byte>)
    ensures Decode(s).n <= 4
  {
  }

  lemma DoRead(q: Queue, k: nat)
    requires q.Ok()
    ensures var n := Taken(q, ORead(k));
            && n == Min(k, |q.Unread()|) && Fails(q, ORead(k)) == (q.Unread() == [] && k > 0)
            && Do(q, ORead(k)) == if q.Unread() == [] then Drop(q) else Consume(q, n, if n > 0 then -1 else 0)
  {
  }

  lemma DoNext(q: Queue, k: nat)
    requires q.Ok()
    ensures var n := Taken(q, ONext(k));
            n == Min(k, |q.Unread()|) && Do(q, ONext(k)) == Consume(q, n, if n > 0 then -1 else 0)
  {
  }

  lemma DoReadBytes(q: Queue, d: Byte)
    requires q.Ok()
    ensures var n := Taken(q, OReadBytes(d));
            var i := IndexByte(q.Unread(), d);
            && n == (if i < 0 then |q.Unread()| else i + 1) && Fails(q, OReadBytes(d)) == (i < 0)
            && Do(q, OReadBytes(d)) == Consume(q, n, -1)
  {
  }

  lemma EncodeAscii(r: int)
    requires 0 <= r < RUNE_SELF
    ensures Encode(r) == [r]
  {
  }

  lemma Extended(stream: seq<Byte>, p: seq<Byte>, k: nat)
    requires k <= |stream|
    ensures (stream + p)[k..] == stream[k..] + p
  {
  }

  lemma ConsumePaid(m: Meter, read: nat, off: nat, capacity: nat, n: nat)
    requires Paid(m, read, off, capacity) && read + n <= m.asked
    ensures Paid(m, read + n, off + n, capacity)
  {
  }

  lemma MoreAsked(m: Meter, read: nat, off: nat, capacity: nat, n: nat)
    requires Paid(m, read, off, capacity)
    ensures Paid(m.(asked := m.asked + n), read, off, capacity)
  {
  }
}
