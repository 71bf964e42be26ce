/** Every step of the pipe keeps its invariant. */
module PipeSteps {

  import opened Common
  import opened Pipe

  lemma Use(s: State, o: Op)
    requires Inv(s)
    ensures o in s.calls ==> CallOk(s, o)
    ensures MuOk(s) && OrderOk(s) && LogOk(s) && !s.panicked
    ensures s.done ==> s.rerr.Some? || s.werr.Some?
  {
  }

  lemma {:induction false} NoneYet(log: seq<Chunk>, o: Op)
    requires forall i :: 0 <= i < |log| ==> log[i].r != o && log[i].w != o
    ensures Sent(log, o) == [] && Sends(log, o) == 0 && Got(log, o) == []
  {
    if log != [] { NoneYet(log[..|log| - 1], o); }
  }

  lemma Push(log: seq<Chunk>, c: Chunk, o: Op)
    ensures Sent(log + [c], o) == Sent(log, o) + if c.w == o then c.bytes else []
    ensures Sends(log + [c], o) == Sends(log, o) + if c.w == o then 1 else 0
    ensures Got(log + [c], o) == Got(log, o) + if c.r == o then [c.bytes] else []
    ensures All(log + [c]) == All(log) + c.bytes
  {
    assert (log + [c])[..|log + [c]| - 1] == log;
  }

  // ----- a call begins

  predicate Newborn(s: State, c: Call) {
    match c
    case Read(was, buf, pc, late) => buf == was && pc.RCheck? && late == s.done
    case Write(data, rest, n, pc, late) => rest == data && n == 0 && pc.WCheck? && late == s.done
    case Close(_, _, pc) => pc.Store?
  }

  lemma NextIsFresh(s: State)
    requires Inv(s)
    ensures s.next !in s.calls && s.next !in s.order && s.mu != Some(s.next)
    ensures Sent(s.log, s.next) == [] && Sends(s.log, s.next) == 0 && Got(s.log, s.next) == []
  {
    hide Inv, ReadOk, WriteOk;
    Use(s, s.next);
    NoneYet(s.log, s.next);
  }

  lemma BeginCall(s: State, c: Call, o: Op)
    requires Inv(s) && Newborn(s, c) && o in Begin(s, c).calls
    ensures CallOk(Begin(s, c), o)
  {
    hide Inv, Sent, Sends, Got, LogOk, OrderOk;
    NextIsFresh(s);
    Use(s, o);
  }

  lemma BeginKeeps(s: State, c: Call)
    requires Inv(s) && Newborn(s, c)
    ensures Inv(Begin(s, c))
  {
    hide CallOk, Sent, Sends, Got, All, Flat, Newborn;
    NextIsFresh(s);
    forall o | o in Begin(s, c).calls ensures CallOk(Begin(s, c), o) { BeginCall(s, c, o); }
  }

  // ----- a call moves on by itself

  lemma ReadSelf(s: State, r: Op)
    requires Inv(s) && IsRead(s, r) && ReadGoes(s, s.calls[r].rpc)
    ensures CallOk(ReadStep(s, r), r)
  {
    hide Inv, Sent, Sends, Got, LogOk, OrderOk, WriteOk, MuOk;
    Use(s, r);
  }

  /** What a call can rely on while others move: nothing of its own changes, done and
      the errors are only ever set, and its partner is the same. */
  ghost predicate Beside(s: State, s2: State, o: Op) {
    && o in s.calls && o in s2.calls && s2.calls[o] == s.calls[o]
    && s2.log == s.log && s2.order == s.order && s2.next == s.next
    && (s.done ==> s2.done) && (s.rerr.Some? ==> s2.rerr == s.rerr) && (s.werr.Some? ==> s2.werr == s.werr)
    && (s.mu == Some(o) <==> s2.mu == Some(o))
  }

  lemma ReadBeside(s: State, s2: State, o: Op)
    requires CallsOk(s, o) && IsRead(s, o) && Beside(s, s2, o)
    requires s.calls[o].rpc.Ack? ==>
        s2.mu == s.mu && s.mu.value in s2.calls && s2.calls[s.mu.value] == s.calls[s.mu.value]
    ensures CallOk(s2, o)
  {
    hide Sent, Sends, Got;
  }

  lemma WriteBeside(s: State, s2: State, o: Op)
    requires CallsOk(s, o) && IsWrite(s, o) && Beside(s, s2, o)
    requires s.calls[o].wpc.Wait? ==>
        s.calls[o].wpc.to in s2.calls && s2.calls[s.calls[o].wpc.to] == s.calls[s.calls[o].wpc.to]
    ensures CallOk(s2, o)
  {
    hide Sent, Sends, Got;
  }

  ghost predicate CallsOk(s: State, o: Op) { o in s.calls && CallOk(s, o) }

  lemma CloseBeside(s: State, s2: State, o: Op)
    requires CallsOk(s, o) && IsClose(s, o) && Beside(s, s2, o)
    ensures CallOk(s2, o)
  {
  }

  lemma AnyBeside(s: State, s2: State, o: Op)
    requires CallsOk(s, o) && Beside(s, s2, o)
    requires IsRead(s, o) && s.calls[o].rpc.Ack? ==>
      s2.mu == s.mu && s.mu.value in s2.calls && s2.calls[s.mu.value] == s.calls[s.mu.value]
    requires IsWrite(s, o) && s.calls[o].wpc.Wait? ==>
      s.calls[o].wpc.to in s2.calls && s2.calls[s.calls[o].wpc.to] == s.calls[s.calls[o].wpc.to]
    ensures CallOk(s2, o)
  {
    hide ReadOk, WriteOk, Beside;
    if s.calls[o].Read? { ReadBeside(s, s2, o); }
    else if s.calls[o].Write? { WriteBeside(s, s2, o); }
    else { CloseBeside(s, s2, o); }
  }

  lemma ReadCall(s: State, r: Op, o: Op)
    requires Inv(s) && IsRead(s, r) && ReadGoes(s, s.calls[r].rpc) && o in s.calls
    ensures CallOk(ReadStep(s, r), o)
  {
    hide Inv, Sent, Sends, Got, LogOk, OrderOk;
    if o == r {
      ReadSelf(s, r);
    } else {
      Use(s, o);
      AnyBeside(s, ReadStep(s, r), o);
    }
  }

  lemma ReadKeeps(s: State, r: Op)
    requires Inv(s) && IsRead(s, r) && ReadGoes(s, s.calls[r].rpc)
    ensures Inv(ReadStep(s, r))
  {
    hide CallOk, Sent, Sends, Got, All, Flat;
    forall o | o in s.calls ensures CallOk(ReadStep(s, r), o) { ReadCall(s, r, o); }
  }

  lemma WriteSelf(s: State, w: Op)
    requires Inv(s) && IsWrite(s, w) && WriteGoes(s, s.calls[w].wpc)
    ensures CallOk(WriteStep(s, w), w)
  {
    hide Inv, Sent, Sends, Got, LogOk, OrderOk, ReadOk, MuOk;
    Use(s, w);
  }

  lemma LockOther(s: State, w: Op, o: Op)
    requires Inv(s) && IsWrite(s, w) && s.calls[w].wpc.Lock? && s.mu.None? && o in s.calls && o != w
    ensures CallOk(WriteStep(s, w), o)
  {
    hide Inv, Sent, Sends, Got, LogOk, OrderOk;
    Use(s, o);
  }

  lemma WriteOther(s: State, w: Op, o: Op)
    requires Inv(s) && IsWrite(s, w) && WriteGoes(s, s.calls[w].wpc) && !s.calls[w].wpc.Lock? && o in s.calls && o != w
    ensures CallOk(WriteStep(s, w), o)
  {
    hide Inv, Sent, Sends, Got, LogOk, OrderOk;
    Use(s, o);
    Use(s, w);
    AnyBeside(s, WriteStep(s, w), o);
  }

  lemma WriteCall(s: State, w: Op, o: Op)
    requires Inv(s) && IsWrite(s, w) && WriteGoes(s, s.calls[w].wpc) && o in s.calls
    ensures CallOk(WriteStep(s, w), o)
  {
    hide Inv, Sent, Sends, Got, LogOk, OrderOk;
    if o == w {
      WriteSelf(s, w);
    } else if s.calls[w].wpc.Lock? {
      LockOther(s, w, o);
    } else {
      WriteOther(s, w, o);
    }
  }

  lemma InvIs(s: State)
    requires !s.panicked && (s.done ==> s.rerr.Some? || s.werr.Some?)
    requires (forall o :: o in s.calls ==> CallOk(s, o)) && MuOk(s) && OrderOk(s) && LogOk(s)
    ensures Inv(s)
  {
  }

  lemma WriteKeeps(s: State, w: Op)
    requires Inv(s) && IsWrite(s, w) && WriteGoes(s, s.calls[w].wpc)
    ensures Inv(WriteStep(s, w))
  {
    hide CallOk, Sent, Sends, Got, All, Flat, Inv;
    Use(s, w);
    forall o | o in s.calls ensures CallOk(WriteStep(s, w), o) { WriteCall(s, w, o); }
    var s2 := WriteStep(s, w);
    assert MuOk(s2) && OrderOk(s2) && LogOk(s2) by { WriteOrder(s, w); }
    InvIs(s2);
  }

  lemma WriteOrder(s: State, w: Op)
    requires Inv(s) && IsWrite(s, w) && WriteGoes(s, s.calls[w].wpc)
    ensures var s2 := WriteStep(s, w); MuOk(s2) && OrderOk(s2) && LogOk(s2)
  {
    hide Inv, Sent, Sends, Got, All, ReadOk;
    Use(s, w);
    var s2 := WriteStep(s, w);
    if s.calls[w].wpc.Lock? {
      LockOrder(s, w);
    } else {
      hide Flat;
    }
  }

  lemma LockOrder(s: State, w: Op)
    requires Inv(s) && IsWrite(s, w) && s.calls[w].wpc.Lock? && s.mu.None?
    ensures var s2 := WriteStep(s, w); MuOk(s2) && OrderOk(s2) && LogOk(s2)
  {
    hide Inv, Sent, Sends, Got, All, ReadOk;
    Use(s, w);
    var s2 := WriteStep(s, w);
    assert s2.order[..|s2.order| - 1] == s.order;
    assert Flat(s.log, s2.order) == Flat(s.log, s.order) + Sent(s.log, w);
  }

  lemma CloseCall(s: State, c: Op, o: Op)
    requires Inv(s) && IsClose(s, c) && !s.calls[c].cpc.CDone? && o in s.calls
    ensures CallOk(CloseStep(s, c), o)
  {
    hide Inv, Sent, Sends, Got, LogOk, OrderOk;
    Use(s, o);
    if o != c { AnyBeside(s, CloseStep(s, c), o); }
  }

  lemma CloseKeeps(s: State, c: Op)
    requires Inv(s) && IsClose(s, c) && !s.calls[c].cpc.CDone?
    ensures Inv(CloseStep(s, c))
  {
    hide ReadOk, WriteOk, Sent, Sends, Got, All, Flat;
    Use(s, c);
    forall o | o in s.calls ensures CallOk(CloseStep(s, c), o) { CloseCall(s, c, o); }
  }

  lemma QuitCall(s: State, q: Op, o: Op)
    requires Inv(s) && Enabled(s, Quit(q)) && o in s.calls
    ensures CallOk(Next(s, Quit(q)), o)
  {
    hide Inv, Sent, Sends, Got, LogOk, OrderOk, ReadStep, WriteStep, CloseStep, GiveStep, TakeStep;
    Use(s, o);
    Use(s, q);
  }

  lemma QuitKeeps(s: State, q: Op)
    requires Inv(s) && Enabled(s, Quit(q))
    ensures Inv(Next(s, Quit(q)))
  {
    hide CallOk, Sent, Sends, Got, All, Flat, ReadStep, WriteStep, CloseStep, GiveStep, TakeStep;
    forall o | o in s.calls ensures CallOk(Next(s, Quit(q)), o) { QuitCall(s, q, o); }
  }

  // ----- wrCh

  lemma LongerPrefix(data: seq<Byte>, n: nat, k: nat)
    requires n + k <= |data|
    ensures data[..n] + data[n..][..k] == data[..n + k]
  {
  }

  lemma GiveWriter(s: State, w: Op, r: Op)
    requires Inv(s) && Enabled(s, Give(w, r))
    ensures CallOk(GiveStep(s, w, r), w)
  {
    hide Inv, Sent, Sends, Got, LogOk, ReadOk, OrderOk, MuOk;
    GiverHolds(s, w);
    Use(s, w);
    var c := s.calls[w];
    var nr := Min(|s.calls[r].buf|, |c.rest|);
    Push(s.log, Chunk(w, r, c.rest[..nr]), w);
    LongerPrefix(c.data, c.n, nr);
    CopyIs(s.calls[r].buf, c.rest, nr);
  }

  lemma GiveReader(s: State, w: Op, r: Op)
    requires Inv(s) && Enabled(s, Give(w, r))
    ensures CallOk(GiveStep(s, w, r), r)
  {
    hide Inv, Sent, Sends, Got, LogOk, OrderOk, MuOk, WriteOk;
    GiverHolds(s, w);
    Use(s, r);
    var c, d := s.calls[w], s.calls[r];
    var nr := Min(|d.buf|, |c.rest|);
    Push(s.log, Chunk(w, r, c.rest[..nr]), r);
    CopyIs(d.buf, c.rest, nr);
  }

  lemma CopyIs(buf: seq<Byte>, rest: seq<Byte>, nr: nat)
    requires nr <= |buf| && nr <= |rest|
    ensures var b := rest[..nr] + buf[nr..]; |b| == |buf| && b[..nr] == rest[..nr] && b[nr..] == buf[nr..]
  {
  }

  lemma GiveOther(s: State, w: Op, r: Op, o: Op)
    requires Inv(s) && Enabled(s, Give(w, r)) && o in s.calls && o != w && o != r
    ensures CallOk(GiveStep(s, w, r), o)
  {
    hide Inv, Sent, Sends, Got, LogOk, OrderOk, MuOk;
    Use(s, o);
    Use(s, w);
    var c := s.calls[w];
    Push(s.log, Chunk(w, r, c.rest[..Min(|s.calls[r].buf|, |c.rest|)]), o);
  }

  /** A chunk of the last writer extends both views of the log alike. */
  lemma {:induction false} FlatPush(log: seq<Chunk>, c: Chunk, order: seq<Op>)
    requires c.w !in order
    ensures Flat(log + [c], order) == Flat(log, order)
  {
    if order != [] {
      FlatPush(log, c, order[..|order| - 1]);
      Push(log, c, order[|order| - 1]);
    }
  }

  lemma GiverHolds(s: State, w: Op)
    requires Inv(s) && IsWrite(s, w) && s.calls[w].wpc.Select?
    ensures s.mu == Some(w) && |s.order| > 0 && s.order[|s.order| - 1] == w && w < s.next
  {
    hide Inv, Sent, Sends, Got, LogOk, OrderOk;
    Use(s, w);
  }

  lemma GiveLog(log: seq<Chunk>, k: Chunk, order: seq<Op>)
    requires |order| > 0 && order[|order| - 1] == k.w && k.w !in order[..|order| - 1]
    requires All(log) == Flat(log, order)
    ensures All(log + [k]) == Flat(log + [k], order)
  {
    hide *;
    var pre := order[..|order| - 1];
    calc {
      All(log + [k]);
      { Push(log, k, k.w); }
      Flat(log, order) + k.bytes;
      { FlatLast(log, order); }
      (Flat(log, pre) + Sent(log, k.w)) + k.bytes;
      { Cat(Flat(log, pre), Sent(log, k.w), k.bytes); }
      Flat(log, pre) + (Sent(log, k.w) + k.bytes);
      { Push(log, k, k.w); FlatPush(log, k, pre); }
      Flat(log + [k], pre) + Sent(log + [k], k.w);
      { FlatLast(log + [k], order); }
      Flat(log + [k], order);
    }
  }

  lemma FlatLast(log: seq<Chunk>, order: seq<Op>)
    requires |order| > 0
    ensures Flat(log, order) == Flat(log, order[..|order| - 1]) + Sent(log, order[|order| - 1])
  {
  }

  lemma GiveOrder(s: State, w: Op, r: Op)
    requires Inv(s) && Enabled(s, Give(w, r))
    ensures var s2 := GiveStep(s, w, r); MuOk(s2) && OrderOk(s2) && LogOk(s2)
  {
    hide Inv, Sent, Sends, Got, ReadOk, WriteOk, All, Flat;
    Use(s, r);
    GiverHolds(s, w);
    var c := s.calls[w];
    var k := Chunk(w, r, c.rest[..Min(|s.calls[r].buf|, |c.rest|)]);
    assert k.w !in s.order[..|s.order| - 1];
    GiveLog(s.log, k, s.order);
  }

  lemma GiveKeeps(s: State, w: Op, r: Op)
    requires Inv(s) && Enabled(s, Give(w, r))
    ensures Inv(GiveStep(s, w, r))
  {
    hide CallOk, Sent, Sends, Got, All, Flat, LogOk, OrderOk, MuOk;
    GiveOrder(s, w, r);
    forall o | o in s.calls ensures CallOk(GiveStep(s, w, r), o) {
      if o == w { GiveWriter(s, w, r); } else if o == r { GiveReader(s, w, r); } else { GiveOther(s, w, r, o); }
    }
  }

  // ----- rdCh

  /** The reader and the writer of a count always belong together, and the count fits. */
  lemma Paired(s: State, w: Op, r: Op)
    requires Inv(s) && Enabled(s, Take(w, r))
    ensures s.mu == Some(w) && s.calls[w].wpc.to == r && s.calls[r].rpc.nr <= |s.calls[w].rest|
  {
    hide Inv, Sent, Sends, Got, LogOk, OrderOk;
    Use(s, w);
    Use(s, r);
  }

  lemma TakeCall(s: State, w: Op, r: Op, o: Op)
    requires Inv(s) && Enabled(s, Take(w, r)) && o in s.calls
    ensures CallOk(TakeStep(s, w, r), o)
  {
    hide Inv, Sent, Sends, Got, LogOk, OrderOk;
    Use(s, o);
    Use(s, w);
    Use(s, r);
    Paired(s, w, r);
  }

  lemma TakeKeeps(s: State, w: Op, r: Op)
    requires Inv(s) && Enabled(s, Take(w, r))
    ensures Inv(TakeStep(s, w, r))
  {
    hide CallOk, Sent, Sends, Got, All, Flat;
    Paired(s, w, r);
    forall o | o in s.calls ensures CallOk(TakeStep(s, w, r), o) { TakeCall(s, w, r, o); }
  }

  lemma StepKeeps(s: State, t: Step)
    requires Inv(s) && Enabled(s, t)
    ensures Inv(Next(s, t))
  {
    hide Inv, ReadStep, WriteStep, CloseStep, GiveStep, TakeStep;
    match t
    case BeginRead(b) => BeginKeeps(s, Read(b, b, RCheck, s.done));
    case BeginWrite(b) => BeginKeeps(s, Write(b, b, 0, WCheck, s.done));
    case BeginClose(rd, why) =>
      BeginKeeps(s, Close(rd, if why.Some? then why.value else if rd then ClosedPipe else EOF, Store));
    case Go(o) =>
      if s.calls[o].Read? { ReadKeeps(s, o); }
      else if s.calls[o].Write? { WriteKeeps(s, o); }
      else { CloseKeeps(s, o); }
    case Quit(o) => QuitKeeps(s, o);
    case Give(w, r) => GiveKeeps(s, w, r);
    case Take(w, r) => TakeKeeps(s, w, r);
  }
}
