/** What each operation on the queue of bytes.Buffer returns, leaves and reports, in terms of
    the unread bytes alone. */
module BufferLaws {

  import opened Common
  import opened Utf8
  import opened IndexBytes
  import opened Buffers

  /** Read and Next take as many bytes as there are, up to n.  Read fails if it is asked for
      some and there are none; Next never does. */
  lemma ReadLaw(q: Queue, n: nat)
    requires q.Ok()
    ensures var u := q.Unread();
            && (if |u| <= n then Taken(q, ORead(n)) == |u| else Taken(q, ORead(n)) == n)
            && Taken(q, ONext(n)) == Taken(q, ORead(n))
            && Do(q, ORead(n)).Unread() == Do(q, ONext(n)).Unread() == u[Taken(q, ORead(n))..]
            && (Fails(q, ORead(n)) <==> n > 0 && u == []) && !Fails(q, ONext(n))
  {
  }

  /** ReadByte and ReadRune take one byte and one code point, and fail exactly at the end. */
  lemma ReadOneLaw(q: Queue)
    requires q.Ok()
    ensures var u := q.Unread();
            && (u == [] <==> Fails(q, OReadByte)) && (u == [] <==> Fails(q, OReadRune))
            && (u != [] ==> Taken(q, OReadByte) == 1 && Do(q, OReadByte).Unread() == u[1..])
            && (u != [] ==> 1 <= Decode(u).n == Taken(q, OReadRune) <= |u|)
            && (u != [] ==> Do(q, OReadRune).Unread() == u[Decode(u).n..])
            && (u == [] ==> Taken(q, OReadByte) == Taken(q, OReadRune) == 0)
            && (u == [] ==> Do(q, OReadByte).Unread() == Do(q, OReadRune).Unread() == [])
  {
    hide Decode;
    AtMostFour(q.Unread());
  }

  /** ReadBytes takes everything through the first delimiter; without one, everything, and
      fails. */
  lemma ReadBytesLaw(q: Queue, d: Byte)
    requires q.Ok()
    ensures var u, n := q.Unread(), Taken(q, OReadBytes(d));
            && Do(q, OReadBytes(d)).Unread() == u[n..]
            && (d in u ==> !Fails(q, OReadBytes(d)) && n > 0 && u[n - 1] == d && d !in u[..n - 1])
            && (d !in u ==> Fails(q, OReadBytes(d)) && n == |u|)
  {
    hide IndexByte;
    var u := q.Unread();
    var i := IndexByte(u, d);
    if i >= 0 { assert u[..i + 1 - 1] == u[..i]; }
  }

  /** Truncate(k) keeps the first k unread bytes, and refuses, changing nothing, to keep more
      than there are; Truncate(0) frees the whole array. */
  lemma TruncateLaw(q: Queue, k: nat)
    requires q.Ok()
    ensures var u, r := q.Unread(), Do(q, OTruncate(k));
            && (k <= |u| ==> !Fails(q, OTruncate(k)) && r.Unread() == u[..k])
            && (k > |u| ==> Fails(q, OTruncate(k)) && r.Unread() == u)
            && r.off == (if k == 0 then 0 else q.off)
            && Fails(r, OUnreadByte) && Fails(r, OUnreadRune) && Taken(q, OTruncate(k)) == 0
  {
    if 0 < k <= |q.Unread()| { assert q.stream[..q.read + k][q.read..] == q.stream[q.read..][..k]; }
  }

  /** Writing puts bytes behind the unread ones, growing leaves those alone, and neither
      fails or takes anything; after a write nothing can be taken back. */
  lemma WriteLaw(q: Queue, p: seq<Byte>, moved: bool)
    requires q.Ok()
    ensures Do(q, OWrite(p, moved)).Unread() == q.Unread() + p && Do(q, OGrow(moved)).Unread() == q.Unread()
    ensures Taken(q, OWrite(p, moved)) == Taken(q, OGrow(moved)) == 0
    ensures !Fails(q, OWrite(p, moved)) && !Fails(q, OGrow(moved))
    ensures Fails(Do(q, OWrite(p, moved)), OUnreadByte) && Fails(Do(q, OWrite(p, moved)), OUnreadRune)
  {
  }

  /** UnreadRune fails unless the last operation was a ReadRune that succeeded.  Grow and a
      failing UnreadByte or UnreadRune leave lastRead alone, but for a Grow that reset. */
  lemma UnreadRuneLaw(q: Queue, op: Op)
    requires q.Ok()
    ensures Fails(Do(q, op), OUnreadRune) <==>
            if op.OGrow? then Fails(q, OUnreadRune) || (q.Unread() == [] && q.off != 0)
            else !(op.OReadRune? && q.Unread() != [])
  {
    hide Decode;
    AtMostFour(q.Unread());
  }

  /** The unread methods take nothing, and one that fails changes nothing. */
  lemma UnreadFails(q: Queue, op: Op)
    requires q.Ok() && (op.OUnreadByte? || op.OUnreadRune?)
    ensures Taken(q, op) == 0 && (Fails(q, op) ==> Do(q, op) == q)
  {
  }
}
