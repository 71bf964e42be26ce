/** Which error a call on the pipe returns, and where it comes from. */
module PipeErrors {

  import opened Common
  import opened Pipe
  import opened PipeSteps
  import opened PipeRuns

  // ----- the errors stored are those given to Close

  /** A call closed this end with e: the error it was given, or else io.EOF for the writer
      and ErrClosedPipe for the reader. */
  ghost predicate Closes(t: Step, rd: bool, e: Error) {
    && t.BeginClose? && t.rd == rd
    && (t.why.Some? ==> e == t.why.value)
    && (t.why.None? && rd ==> e == ClosedPipe)
    && (t.why.None? && !rd ==> e == EOF)
  }

  ghost predicate Given(steps: seq<Step>, rd: bool, e: Error) {
    exists i :: 0 <= i < |steps| && Closes(steps[i], rd, e)
  }

  ghost predicate AllGiven(s: State, steps: seq<Step>) {
    && (s.rerr.Some? ==> Given(steps, true, s.rerr.value))
    && (s.werr.Some? ==> Given(steps, false, s.werr.value))
    && (forall o :: IsClose(s, o) ==> Given(steps, s.calls[o].rd, s.calls[o].err))
  }

  lemma GivenStill(steps: seq<Step>, t: Step, rd: bool, e: Error)
    requires Given(steps, rd, e) || Closes(t, rd, e)
    ensures Given(steps + [t], rd, e)
  {
    hide Closes;
    if Closes(t, rd, e) {
      assert (steps + [t])[|steps|] == t;
    } else {
      var i :| 0 <= i < |steps| && Closes(steps[i], rd, e);
      assert (steps + [t])[i] == steps[i];
    }
  }

  /** A call that moves on by itself stays what it is. */
  ghost predicate SameKind(c: Call, d: Call) {
    && (c.Read? <==> d.Read?) && (c.Write? <==> d.Write?) && (c.Close? <==> d.Close?)
    && (c.Close? && d.Close? ==> c.rd == d.rd && c.err == d.err)
  }

  lemma ReadKind(s: State, a: Op)
    requires IsRead(s, a)
    ensures ReadStep(s, a).calls.Keys == s.calls.Keys && SameKind(s.calls[a], ReadStep(s, a).calls[a])
    ensures forall o :: o in s.calls && o != a ==> ReadStep(s, a).calls[o] == s.calls[o]
  {
    hide CloseError;
  }

  lemma WriteKind(s: State, a: Op)
    requires IsWrite(s, a)
    ensures WriteStep(s, a).calls.Keys == s.calls.Keys && SameKind(s.calls[a], WriteStep(s, a).calls[a])
    ensures forall o :: o in s.calls && o != a ==> WriteStep(s, a).calls[o] == s.calls[o]
  {
    hide CloseError;
  }

  /** Every close call, and every stored error, was there or comes from this step. */
  lemma CloseSource(s: State, t: Step, o: Op)
    requires Enabled(s, t) && s.next !in s.calls && IsClose(Next(s, t), o)
    ensures var c := Next(s, t).calls[o];
            (IsClose(s, o) && s.calls[o].rd == c.rd && s.calls[o].err == c.err) || Closes(t, c.rd, c.err)
  {
    hide CloseError, ReadStep, WriteStep, Closes;
    if t.Go? && IsRead(s, t.o) { ReadKind(s, t.o); }
    if t.Go? && IsWrite(s, t.o) { WriteKind(s, t.o); }
    if t.BeginClose? { BegunClose(s, t); }
  }

  lemma BegunClose(s: State, t: Step)
    requires t.BeginClose?
    ensures Closes(t, t.rd, Next(s, t).calls[s.next].err)
  {
  }

  lemma ErrorSource(s: State, t: Step)
    requires Enabled(s, t)
    ensures var s2 := Next(s, t);
            && (s2.rerr == s.rerr || exists o :: IsClose(s, o) && s.calls[o].rd && s2.rerr == Some(s.calls[o].err))
            && (s2.werr == s.werr || exists o :: IsClose(s, o) && !s.calls[o].rd && s2.werr == Some(s.calls[o].err))
  {
    hide CloseError;
    if t.Go? && IsClose(s, t.o) { assert IsClose(s, t.o); }
  }

  lemma StepGiven(s: State, t: Step, steps: seq<Step>)
    requires Inv(s) && Enabled(s, t) && AllGiven(s, steps)
    ensures AllGiven(Next(s, t), steps + [t])
  {
    hide Inv, Enabled, Next, Given, Closes;
    var s2 := Next(s, t);
    Use(s, s.next);
    ErrorSource(s, t);
    if s2.rerr.Some? { GivenStill(steps, t, true, s2.rerr.value); }
    if s2.werr.Some? { GivenStill(steps, t, false, s2.werr.value); }
    forall o | IsClose(s2, o) ensures Given(steps + [t], s2.calls[o].rd, s2.calls[o].err) {
      CloseSource(s, t, o);
      GivenStill(steps, t, s2.calls[o].rd, s2.calls[o].err);
    }
  }

  lemma NoneGiven()
    ensures AllGiven(Init(), [])
  {
  }

  /** At every point of every run, the error of each end is that of an earlier call that
      closed it. */
  lemma {:induction false} ErrorsGiven(states: seq<State>, steps: seq<Step>, i: nat)
    requires IsRun(states, steps) && i < |states|
    ensures AllGiven(states[i], steps[..i])
  {
    hide Inv, Enabled, Next, Init, AllGiven;
    if i == 0 {
      NoneGiven();
      assert steps[..0] == [];
    } else {
      ErrorsGiven(states, steps, i - 1);
      InvHolds(states, steps, i - 1);
      assert Moves(states[i - 1], steps[i - 1], states[i]);
      StepGiven(states[i - 1], steps[i - 1], steps[..i - 1]);
      assert steps[..i] == steps[..i - 1] + [steps[i - 1]];
    }
  }

  // ----- the error of a call that fails

  /** Its own end is closed: r has not read, and will not read, anything else. */
  ghost predicate OwnClosed(s: State, o: Op) {
    && (IsRead(s, o) ==>
          && s.rerr.Some?
          && (s.calls[o].rpc.RErr2? ==> s.calls[o].rpc.rerr.Some?)
          && (s.calls[o].rpc.RDone? && s.calls[o].rpc.err.Some? ==> s.calls[o].rpc.err.value == ClosedPipe))
    && (IsWrite(s, o) ==>
          && s.werr.Some?
          && (s.calls[o].wpc.WErr2? ==> s.calls[o].wpc.werr.Some?)
          && (s.calls[o].wpc.WDone? && s.calls[o].wpc.err.Some? ==> s.calls[o].wpc.err.value == ClosedPipe))
  }

  lemma OwnRead(s: State, a: Op, o: Op)
    requires IsRead(s, a) && ReadGoes(s, s.calls[a].rpc) && o in s.calls && OwnClosed(s, o)
    ensures OwnClosed(ReadStep(s, a), o)
  {
  }

  lemma OwnWrite(s: State, a: Op, o: Op)
    requires IsWrite(s, a) && WriteGoes(s, s.calls[a].wpc) && o in s.calls && OwnClosed(s, o)
    ensures OwnClosed(WriteStep(s, a), o)
  {
  }

  lemma OwnClose(s: State, a: Op, o: Op)
    requires IsClose(s, a) && o in s.calls && OwnClosed(s, o)
    ensures OwnClosed(CloseStep(s, a), o)
  {
  }

  lemma OwnMeets(s: State, w: Op, r: Op, o: Op)
    requires IsWrite(s, w) && IsRead(s, r) && o in s.calls && OwnClosed(s, o)
    ensures OwnClosed(GiveStep(s, w, r), o)
    ensures s.calls[r].rpc.Ack? ==> OwnClosed(TakeStep(s, w, r), o)
  {
  }

  lemma OwnStays(s: State, t: Step, o: Op)
    requires Inv(s) && Enabled(s, t) && o in s.calls && OwnClosed(s, o)
    ensures OwnClosed(Next(s, t), o)
  {
    hide Inv, ReadStep, WriteStep, CloseStep, GiveStep, TakeStep, ReadOk, WriteOk;
    Use(s, s.next);
    if t.Go? {
      if IsRead(s, t.o) { OwnRead(s, t.o, o); }
      else if IsWrite(s, t.o) { OwnWrite(s, t.o, o); }
      else { OwnClose(s, t.o, o); }
    } else if t.Give? || t.Take? {
      OwnMeets(s, t.w, t.r, o);
    }
  }

  /** The call that step i begins, up to any later state. */
  lemma {:induction false} OwnFrom(states: seq<State>, steps: seq<Step>, i: nat, k: nat)
    requires IsRun(states, steps) && i < k < |states|
    requires (steps[i].BeginRead? && states[i].rerr.Some?) || (steps[i].BeginWrite? && states[i].werr.Some?)
    ensures states[i].next in states[k].calls && OwnClosed(states[k], states[i].next)
    decreases k
  {
    hide Inv, Init;
    InvHolds(states, steps, k - 1);
    assert Moves(states[k - 1], steps[k - 1], states[k]);
    if k == i + 1 {
    } else {
      OwnFrom(states, steps, i, k - 1);
      hide Enabled, Next, OwnClosed;
      OwnStays(states[k - 1], steps[k - 1], states[i].next);
      StepFinal(states[k - 1], steps[k - 1]);
    }
  }

  /** A Read of a pipe whose read end was closed before it began fails with ErrClosedPipe;
      if the read end is still open when it has failed, its error is the writer's; and if
      the write end is, ErrClosedPipe. */
  lemma ReadError(states: seq<State>, steps: seq<Step>, i: nat, k: nat)
    requires IsRun(states, steps) && i < k < |states| && steps[i].BeginRead?
    requires IsRead(states[k], states[i].next) && states[k].calls[states[i].next].rpc.RDone?
    requires states[k].calls[states[i].next].rpc.err.Some?
    ensures var e := states[k].calls[states[i].next].rpc.err.value;
            && (states[i].rerr.Some? ==> e == ClosedPipe)
            && (states[k].rerr.None? ==> states[k].werr == Some(e) && Given(steps[..k], false, e))
            && (states[k].werr.None? ==> e == ClosedPipe)
            && (e == ClosedPipe || states[k].werr == Some(e))
  {
    hide Inv, Enabled, Next, Init, Given;
    if states[i].rerr.Some? { OwnFrom(states, steps, i, k); }
    InvHolds(states, steps, k);
    ReadResult(states[k], states[i].next);
    ErrorsGiven(states, steps, k);
  }

  /** The same for a Write, with the ends exchanged. */
  lemma WriteError(states: seq<State>, steps: seq<Step>, i: nat, k: nat)
    requires IsRun(states, steps) && i < k < |states| && steps[i].BeginWrite?
    requires IsWrite(states[k], states[i].next) && states[k].calls[states[i].next].wpc.WDone?
    requires states[k].calls[states[i].next].wpc.err.Some?
    ensures var e := states[k].calls[states[i].next].wpc.err.value;
            && (states[i].werr.Some? ==> e == ClosedPipe)
            && (states[k].werr.None? ==> states[k].rerr == Some(e) && Given(steps[..k], true, e))
            && (states[k].rerr.None? ==> e == ClosedPipe)
            && (e == ClosedPipe || states[k].rerr == Some(e))
  {
    hide Inv, Enabled, Next, Init, Given;
    if states[i].werr.Some? { OwnFrom(states, steps, i, k); }
    InvHolds(states, steps, k);
    WriteResult(states[k], states[i].next);
    ErrorsGiven(states, steps, k);
  }

  /** A close that has returned has closed its end and the pipe. */
  lemma CloseResult(s: State, o: Op)
    requires Inv(s) && IsClose(s, o) && s.calls[o].cpc.CDone?
    ensures s.done && if s.calls[o].rd then s.rerr.Some? else s.werr.Some?
  {
    hide Inv, Sent, Got, Sends, LogOk, OrderOk, MuOk, ReadOk, WriteOk;
    Use(s, o);
  }

  // ----- chunks are as long as they can be

  /** A rendezvous fills the reader's buffer or empties the writer's slice. */
  lemma GiveFills(s: State, w: Op, r: Op)
    requires Inv(s) && Enabled(s, Give(w, r))
    ensures var s2 := Next(s, Give(w, r));
            && |s2.log| == |s.log| + 1 && s2.log[..|s.log|] == s.log
            && var k := s2.log[|s.log|];
               && k.w == w && k.r == r && k.bytes <= s.calls[w].rest
               && |k.bytes| <= |s.calls[r].buf| && (k.bytes == s.calls[w].rest || |k.bytes| == |s.calls[r].buf|)
  {
  }
}
