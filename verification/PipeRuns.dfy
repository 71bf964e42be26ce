/** What the invariant of the pipe means for its users. */
module PipeRuns {

  import opened Common
  import opened Pipe
  import opened PipeSteps

  ghost predicate Moves(s: State, t: Step, s2: State) { Enabled(s, t) && s2 == Next(s, t) }

  ghost predicate IsRun(states: seq<State>, steps: seq<Step>) {
    && |states| == |steps| + 1
    && states[0] == Init()
    && forall i :: 0 <= i < |steps| ==> Moves(states[i], steps[i], states[i + 1])
  }

  lemma InitOk()
    ensures Inv(Init())
  {
  }

  lemma {:induction false} InvHolds(states: seq<State>, steps: seq<Step>, i: nat)
    requires IsRun(states, steps) && i < |states|
    ensures Inv(states[i])
  {
    hide Inv, Enabled, Next, Init;
    if i == 0 {
      InitOk();
    } else {
      InvHolds(states, steps, i - 1);
      assert Moves(states[i - 1], steps[i - 1], states[i]);
      StepKeeps(states[i - 1], steps[i - 1]);
    }
  }

  // ----- delivery

  /** The prefixes acknowledged to the writers, in lock order. */
  ghost function Acked(s: State, order: seq<Op>): seq<Byte> {
    if order == [] then []
    else Acked(s, order[..|order| - 1]) + AckedTo(s, order[|order| - 1])
  }

  ghost function AckedTo(s: State, w: Op): seq<Byte> {
    if IsWrite(s, w) && s.calls[w].n <= |s.calls[w].data| then s.calls[w].data[..s.calls[w].n] else []
  }

  /** The chunk a reader has copied but not acknowledged, if there is one. */
  ghost function InFlight(s: State): seq<Byte> {
    if s.mu.None? || !IsWrite(s, s.mu.value) || !s.calls[s.mu.value].wpc.Wait? then []
    else
      var r := s.calls[s.mu.value].wpc.to;
      if IsRead(s, r) && s.calls[r].rpc.Ack? && s.calls[r].rpc.nr <= |s.calls[r].buf|
      then s.calls[r].buf[..s.calls[r].rpc.nr] else []
  }

  lemma SentIsAcked(s: State, w: Op)
    requires Inv(s) && IsWrite(s, w)
    ensures Sent(s.log, w) == AckedTo(s, w) + if s.mu == Some(w) then InFlight(s) else []
  {
    hide Inv, Sent, Sends, Got, LogOk, OrderOk, MuOk;
    Use(s, w);
    var c := s.calls[w];
    if c.wpc.Wait? {
      Use(s, c.wpc.to);
      assert c.data[..c.n + s.calls[c.wpc.to].rpc.nr] == c.data[..c.n] + c.rest[..s.calls[c.wpc.to].rpc.nr];
    }
  }

  lemma OneMore(s: State, order: seq<Op>, w: Op)
    ensures Flat(s.log, order + [w]) == Flat(s.log, order) + Sent(s.log, w)
    ensures Acked(s, order + [w]) == Acked(s, order) + AckedTo(s, w)
  {
    hide Sent, AckedTo;
    assert (order + [w])[..|order + [w]| - 1] == order;
  }

  lemma NothingYet(s: State)
    ensures Flat(s.log, []) == Acked(s, []) == []
  {
  }

  lemma {:induction false} FlatIsAcked(s: State, k: nat)
    requires Inv(s) && k <= |s.order| && forall i :: 0 <= i < k ==> s.mu != Some(s.order[i])
    ensures Flat(s.log, s.order[..k]) == Acked(s, s.order[..k])
  {
    hide *;
    if k == 0 {
      NothingYet(s);
      assert s.order[..0] == [];
    } else {
      FlatIsAcked(s, k - 1);
      OrderWrites(s, k - 1);
      SentIsAcked(s, s.order[k - 1]);
      OneMore(s, s.order[..k - 1], s.order[k - 1]);
      assert s.order[..k] == s.order[..k - 1] + [s.order[k - 1]];
    }
  }

  lemma OrderWrites(s: State, i: nat)
    requires Inv(s) && i < |s.order|
    ensures IsWrite(s, s.order[i])
    ensures i < |s.order| - 1 ==> s.mu != Some(s.order[i])
  {
    hide CallOk, LogOk;
  }

  /** The chunks copied to readers, in rendezvous order, are the prefixes acknowledged to
      writers, in lock order, and one more chunk at most. */
  lemma Conservation(s: State)
    requires Inv(s)
    ensures All(s.log) == Acked(s, s.order) + InFlight(s)
  {
    hide Inv, Sent, All, Flat, AckedTo, CallOk, OrderOk;
    Use(s, 0);
    var k := |s.order|;
    assert s.order[..k] == s.order;
    if s.mu.None? {
      FlatIsAcked(s, k);
    } else {
      forall i | 0 <= i < k - 1 ensures s.mu != Some(s.order[i]) { OrderWrites(s, i); }
      FlatIsAcked(s, k - 1);
      SentIsAcked(s, s.mu.value);
      FlatLast(s.log, s.order);
    }
  }

  /** A Write that returns nil has had every byte delivered, in at least one rendezvous,
      and in exactly one if there was no byte; one that fails reports what was. */
  lemma WriteResult(s: State, w: Op)
    requires Inv(s) && IsWrite(s, w) && s.calls[w].wpc.WDone?
    ensures var c := s.calls[w];
            && c.n <= |c.data| && Sent(s.log, w) == c.data[..c.n]
            && (c.wpc.err.None? ==> c.n == |c.data| && Sent(s.log, w) == c.data && Sends(s.log, w) > 0)
            && (c.wpc.err.None? && c.data == [] ==> Sends(s.log, w) == 1)
            && (c.wpc.err.Some? ==> Explained(c.wpc.err.value, s.werr, s.rerr))
            && (c.late ==> c.wpc.err.Some? && c.n == 0)
  {
    hide Inv, Sent, Sends, Got, LogOk, OrderOk, MuOk;
    Use(s, w);
  }

  /** A Read that returns nil has the bytes of one rendezvous at the front of its buffer;
      one that fails has taken nothing and left its buffer alone. */
  lemma ReadResult(s: State, r: Op)
    requires Inv(s) && IsRead(s, r) && s.calls[r].rpc.RDone?
    ensures var c := s.calls[r];
            && c.rpc.n <= |c.was| == |c.buf| && c.buf[c.rpc.n..] == c.was[c.rpc.n..]
            && (c.rpc.err.None? ==> Got(s.log, r) == [c.buf[..c.rpc.n]])
            && (c.rpc.err.Some? ==> c.rpc.n == 0 && Got(s.log, r) == [] && Explained(c.rpc.err.value, s.rerr, s.werr))
            && (c.late ==> c.rpc.err.Some?)
  {
    hide Inv, Sent, Sends, Got, LogOk, OrderOk, MuOk;
    Use(s, r);
  }

  // ----- a reader holding a chunk can always acknowledge it

  lemma CanAck(s: State, r: Op)
    requires Inv(s) && IsRead(s, r) && s.calls[r].rpc.Ack?
    ensures s.mu.Some? && Enabled(s, Take(s.mu.value, r))
    ensures forall w: Op :: Enabled(s, Take(w, r)) ==> s.mu == Some(w)
  {
    hide Inv, Sent, Sends, Got, LogOk, OrderOk, MuOk, Copied;
    Use(s, r);
    forall w: Op | Enabled(s, Take(w, r)) ensures s.mu == Some(w) { Paired(s, w, r); }
  }

  predicate Finished(c: Call) {
    match c
    case Read(_, _, pc, _) => pc.RDone?
    case Write(_, _, _, pc, _) => pc.WDone?
    case Close(_, _, pc) => pc.CDone?
  }

  predicate Internal(t: Step) { t.Go? || t.Quit? || t.Give? || t.Take? }

  /** The state of a pipe in which nothing can happen without a new call. */
  ghost predicate Stuck(s: State) { forall t :: Internal(t) ==> !Enabled(s, t) }

  lemma Rest(s: State, t: Step)
    requires Stuck(s) && Internal(t)
    ensures !Enabled(s, t)
  {
  }

  lemma HolderAtRest(s: State)
    requires Inv(s) && Stuck(s) && s.mu.Some?
    ensures IsWrite(s, s.mu.value) && s.calls[s.mu.value].wpc.Select? && !s.done
  {
    hide Inv, Stuck, LogOk, OrderOk, Sent, Got, Sends, ReadOk;
    var w := s.mu.value;
    Use(s, w);
    Rest(s, Go(w));
    Rest(s, Quit(w));
    if s.calls[w].wpc.Wait? { Rest(s, Take(w, s.calls[w].wpc.to)); }
  }

  lemma ReaderAtRest(s: State, r: Op)
    requires Inv(s) && Stuck(s) && IsRead(s, r) && !Finished(s.calls[r])
    ensures s.calls[r].rpc.Offer? && !s.done && s.mu.None?
  {
    hide Inv, Stuck, LogOk, OrderOk, Sent, Got, Sends, WriteOk, ReadOk;
    Rest(s, Go(r));
    Rest(s, Quit(r));
    if s.calls[r].rpc.Ack? {
      CanAck(s, r);
      Rest(s, Take(s.mu.value, r));
    }
    if s.mu.Some? {
      HolderAtRest(s);
      Rest(s, Give(s.mu.value, r));
    }
  }

  lemma WriterAtRest(s: State, w: Op)
    requires Inv(s) && Stuck(s) && IsWrite(s, w) && !Finished(s.calls[w])
    ensures s.mu.Some? && (s.calls[w].wpc.Lock? || s.mu == Some(w))
  {
    hide Inv, Stuck, LogOk, OrderOk, Sent, Got, Sends, ReadOk;
    Use(s, w);
    Rest(s, Go(w));
  }

  /** Unfinished calls of a pipe at rest: readers only, or writers only, all waiting for
      the other side to turn up, on a pipe that is open. */
  lemma AtRest(s: State, o: Op)
    requires Inv(s) && Stuck(s) && o in s.calls && !Finished(s.calls[o])
    ensures !s.done && !s.calls[o].Close?
    ensures s.calls[o].Read? ==>
      s.calls[o].rpc.Offer? && forall w :: IsWrite(s, w) ==> Finished(s.calls[w])
    ensures s.calls[o].Write? ==>
      && s.mu.Some? && IsWrite(s, s.mu.value) && s.calls[s.mu.value].wpc.Select?
      && (s.calls[o].wpc.Lock? || s.mu == Some(o))
      && forall r :: IsRead(s, r) ==> Finished(s.calls[r])
  {
    hide Inv, LogOk, OrderOk, CallOk, Stuck;
    if s.calls[o].Write? {
      WriterAtRest(s, o);
      HolderAtRest(s);
      forall r | IsRead(s, r) ensures Finished(s.calls[r]) {
        if !Finished(s.calls[r]) { ReaderAtRest(s, r); }
      }
    } else if s.calls[o].Read? {
      ReaderAtRest(s, o);
      forall w | IsWrite(s, w) ensures Finished(s.calls[w]) {
        if !Finished(s.calls[w]) { WriterAtRest(s, w); }
      }
    } else {
      Rest(s, Go(o));
    }
  }

  // ----- errors and done are final

  ghost predicate Final(s: State, s2: State) {
    && (s.done ==> s2.done) && (s.rerr.Some? ==> s2.rerr == s.rerr) && (s.werr.Some? ==> s2.werr == s.werr)
    && s.log <= s2.log && s.order <= s2.order
    && forall o :: o in s.calls ==> o in s2.calls && (Finished(s.calls[o]) ==> s2.calls[o] == s.calls[o])
  }

  /** o is still there, and if it had finished it has not changed. */
  ghost predicate Settled(s: State, s2: State, o: Op) {
    o in s.calls ==> o in s2.calls && (Finished(s.calls[o]) ==> s2.calls[o] == s.calls[o])
  }

  lemma PutSettled(s: State, a: Op, c: Call, o: Op)
    requires a in s.calls ==> !Finished(s.calls[a])
    ensures Settled(s, Put(s, a, c), o)
  {
    hide Finished;
  }

  lemma ReadSettled(s: State, a: Op, o: Op)
    requires IsRead(s, a) && ReadGoes(s, s.calls[a].rpc)
    ensures Settled(s, ReadStep(s, a), o)
  {
    PutSettled(s, a, ReadStep(s, a).calls[a], o);
  }

  lemma WriteSettled(s: State, a: Op, o: Op)
    requires IsWrite(s, a) && WriteGoes(s, s.calls[a].wpc)
    ensures Settled(s, WriteStep(s, a), o)
  {
    hide CloseError;
    PutSettled(s, a, WriteStep(s, a).calls[a], o);
  }

  lemma CloseSettled(s: State, a: Op, o: Op)
    requires IsClose(s, a) && !s.calls[a].cpc.CDone?
    ensures Settled(s, CloseStep(s, a), o)
  {
    PutSettled(s, a, CloseStep(s, a).calls[a], o);
  }

  lemma CallFinal(s: State, t: Step, o: Op)
    requires Inv(s) && Enabled(s, t)
    ensures Settled(s, Next(s, t), o)
  {
    hide Inv, Sent, Got, Sends, LogOk, OrderOk, MuOk, ReadOk, WriteOk, CloseError, ReadStep, WriteStep, CloseStep;
    Use(s, s.next);
    if t.Go? {
      hide Settled;
      if IsRead(s, t.o) { ReadSettled(s, t.o, o); }
      else if IsWrite(s, t.o) { WriteSettled(s, t.o, o); }
      else { CloseSettled(s, t.o, o); }
    }
  }

  lemma StepFinal(s: State, t: Step)
    requires Inv(s) && Enabled(s, t)
    ensures Final(s, Next(s, t))
  {
    hide Inv, Finished, CloseError;
    forall o | o in s.calls ensures Settled(s, Next(s, t), o) {
      CallFinal(s, t, o);
    }
  }

  lemma {:induction false} RunFinal(states: seq<State>, steps: seq<Step>, i: nat, j: nat)
    requires IsRun(states, steps) && i <= j < |states|
    ensures Final(states[i], states[j])
    decreases j
  {
    hide Inv, Enabled, Next, Init;
    if i < j {
      RunFinal(states, steps, i, j - 1);
      InvHolds(states, steps, j - 1);
      assert Moves(states[j - 1], steps[j - 1], states[j]);
      StepFinal(states[j - 1], steps[j - 1]);
    }
  }
}
