/** net/dial.go: the Happy Eyeballs race (section 4 of RFC 6555) as a state machine of
    the main loop, the racers and the fallback timer. */
module Dial {

  import Bits
  import opened Common

  type Error = int

  datatype Outcome = Conn | Failed(err: Error)

  /** Offering: the outcome is ready, to be sent on results or dropped. */
  datatype Phase = Dialing | Offering | Sent | Dropped

  datatype Racer = Racer(primary: bool, phase: Phase, out: Outcome, closed: bool)

  /** HeadStart: it runs for the fallback delay; Due: for no time; Expired: the time is in
      the timer's channel; Idle: it was received, or stopped. */
  datatype Timer = HeadStart | Due | Expired | Idle

  datatype Main = Loop | ReturnConn(racer: nat) | ReturnErr(err: Error)

  /** primary and fallback: the error results received so far. */
  datatype State = State(
    main: Main, racers: seq<Racer>, timer: Timer,
    primary: Option<Error>, fallback: Option<Error>)

  datatype Step =
    | Expire
    | ReceiveTimer
    | Finish(i: nat, out: Outcome)       // dialSerial returns to racer i
    | Send(i: nat, stopped: bool)        // results <- ; stopped is what Stop reports, if called
    | Drop(i: nat)                       // <-returned

  function Init(): State {
    State(Loop, [Racer(true, Dialing, Conn, false)], HeadStart, None, None)
  }

  /** Stop is true of a running timer and false of an idle one; of an expired timer it is
      either, and true takes the time out of the channel. */
  predicate StopReports(t: Timer, stopped: bool) {
    match t
    case HeadStart => stopped
    case Due => stopped
    case Expired => true
    case Idle => !stopped
  }

  predicate Enabled(s: State, t: Step) {
    match t
    case Expire => s.timer.HeadStart? || s.timer.Due?
    case ReceiveTimer => s.main.Loop? && s.timer.Expired?
    case Finish(i, _) => i < |s.racers| && s.racers[i].phase.Dialing?
    case Send(i, stopped) => i < |s.racers| && s.racers[i].phase.Offering? && s.main.Loop?
        && StopReports(s.timer, stopped)
    case Drop(i) => i < |s.racers| && s.racers[i].phase.Offering? && !s.main.Loop?
  }

  function Put(s: State, i: nat, r: Racer): State
    requires i < |s.racers|
  {
    s.(racers := s.racers[i := r])
  }

  function Next(s: State, t: Step): State
    requires Enabled(s, t)
  {
    match t
    case Expire => s.(timer := Expired)
    case ReceiveTimer => s.(timer := Idle, racers := s.racers + [Racer(false, Dialing, Conn, false)])
    case Finish(i, out) => Put(s, i, s.racers[i].(phase := Offering, out := out))
    case Send(i, stopped) => Receive(Put(s, i, s.racers[i].(phase := Sent)), i, stopped)
    case Drop(i) => Put(s, i, s.racers[i].(phase := Dropped, closed := s.racers[i].out.Conn?))
  }

  /** case res := <-results */
  function Receive(s: State, i: nat, stopped: bool): State
    requires i < |s.racers|
  {
    var r := s.racers[i];
    if r.out.Conn? then Return(s, ReturnConn(i))
    else
      var s1 := if r.primary then s.(primary := Some(r.out.err)) else s.(fallback := Some(r.out.err));
      if s1.primary.Some? && s1.fallback.Some? then Return(s1, ReturnErr(s1.primary.value))
      else if r.primary && stopped then s1.(timer := Due)   // Stop, then Reset(0)
      else s1
  }

  /** The deferred fallbackTimer.Stop and close(returned). */
  function Return(s: State, m: Main): State { s.(main := m, timer := Idle) }

  // ----- the invariant

  ghost predicate RacerOk(s: State, i: nat)
    requires i < |s.racers|
  {
    var r := s.racers[i];
    && (r.primary <==> i == 0)
    && (r.phase.Sent? && r.out.Failed? ==> (if i == 0 then s.primary else s.fallback) == Some(r.out.err))
    && (r.phase.Sent? && r.out.Conn? ==> s.main == ReturnConn(i))
    && (r.phase.Dropped? ==> !s.main.Loop?)
    && (r.closed <==> r.phase.Dropped? && r.out.Conn?)
  }

  ghost predicate Inv(s: State) {
    && 1 <= |s.racers| <= 2
    && (forall i :: 0 <= i < |s.racers| ==> RacerOk(s, i))
    // the primary's failure ends its head start
    && (s.main.Loop? ==> (s.timer.HeadStart? ==> s.primary.None?) && (s.timer.Due? ==> s.primary.Some?))
    // the fallback racer is started by the one expiry of the timer that is received
    && (s.main.Loop? ==> (|s.racers| == 1 <==> !s.timer.Idle?))
    && (s.primary.Some? ==> s.racers[0].phase.Sent? && s.racers[0].out == Failed(s.primary.value))
    && (s.fallback.Some? ==> |s.racers| == 2 && s.racers[1].phase.Sent? && s.racers[1].out == Failed(s.fallback.value))
    && (s.main.Loop? ==> s.primary.None? || s.fallback.None?)
    && match s.main
       case Loop => true
       case ReturnConn(i) => i < |s.racers| && s.racers[i].phase.Sent? && s.racers[i].out.Conn?
       case ReturnErr(e) => s.primary == Some(e) && s.fallback.Some?
  }

  lemma SendKeeps(s: State, i: nat, stopped: bool)
    requires Inv(s) && Enabled(s, Send(i, stopped))
    ensures Inv(Next(s, Send(i, stopped)))
  {
    var s2 := Next(s, Send(i, stopped));
    assert RacerOk(s, 0) && (|s.racers| == 2 ==> RacerOk(s, 1));
    assert s2.racers == s.racers[i := s.racers[i].(phase := Sent)];
    forall j | 0 <= j < |s2.racers| ensures RacerOk(s2, j) {}
  }

  lemma StepKeeps(s: State, t: Step)
    requires Inv(s) && Enabled(s, t)
    ensures Inv(Next(s, t))
  {
    assert RacerOk(s, 0) && (|s.racers| == 2 ==> RacerOk(s, 1));
    if t.Send? {
      SendKeeps(s, t.i, t.stopped);
    } else {
      hide Receive;
      var s2 := Next(s, t);
      forall j | 0 <= j < |s2.racers| ensures RacerOk(s2, j) {}
    }
  }

  ghost predicate Moves(s: State, t: Step, s2: State) { Enabled(s, t) && s2 == Next(s, t) }

  ghost predicate IsRun(states: seq<State>, steps: seq<Step>) {
    && |states| == |steps| + 1
    && states[0] == Init()
    && forall i :: 0 <= i < |steps| ==> Moves(states[i], steps[i], states[i + 1])
  }

  lemma {:induction false} InvHolds(states: seq<State>, steps: seq<Step>, i: nat)
    requires IsRun(states, steps) && i < |states|
    ensures Inv(states[i])
  {
    if i > 0 {
      InvHolds(states, steps, i - 1);
      assert Moves(states[i - 1], steps[i - 1], states[i]);
      StepKeeps(states[i - 1], steps[i - 1]);
    }
  }

  // ----- what the invariant means

  function Fallbacks(racers: seq<Racer>): nat {
    if racers == [] then 0
    else Fallbacks(racers[..|racers| - 1]) + if racers[|racers| - 1].primary then 0 else 1
  }

  /** The fallback racer is started once at most, however the timer and the primary's
      failure fall together. */
  lemma OneFallback(s: State)
    requires Inv(s)
    ensures Fallbacks(s.racers) <= 1 && Fallbacks(s.racers) == |s.racers| - 1
  {
    assert RacerOk(s, 0) && (|s.racers| == 2 ==> RacerOk(s, 1));
    var one := s.racers[..1];
    assert Fallbacks(one[..0]) == 0 && Fallbacks(one) == 0;
    if |s.racers| == 2 {
      assert Fallbacks(s.racers) == Fallbacks(s.racers[..1]) + 1;
    } else {
      assert one == s.racers;
    }
  }

  /** As soon as the primary has failed the fallback racer is there, or nothing is left to
      wait for before it is started; until then it has the whole fallback delay to itself. */
  lemma {:induction false} FallbackStarts(states: seq<State>, steps: seq<Step>, i: nat)
    requires IsRun(states, steps) && i < |states| && states[i].main.Loop?
    ensures states[i].primary.Some? ==> |states[i].racers| == 2 || states[i].timer.Due? || states[i].timer.Expired?
    ensures |states[i].racers| == 2 || states[i].timer.Expired? ==>
            exists j :: 0 <= j < i && steps[j] == Expire && (states[j].timer.HeadStart? || states[j].primary.Some?)
  {
    InvHolds(states, steps, i);
    if i > 0 {
      var s := states[i - 1];
      InvHolds(states, steps, i - 1);
      assert Moves(s, steps[i - 1], states[i]);
      if steps[i - 1] == Expire {
        assert s.timer.HeadStart? || s.primary.Some?;
      } else {
        FallbackStarts(states, steps, i - 1);
      }
    }
  }

  /** An error is returned only when both racers have failed, and it is the primary's. */
  lemma ErrorIsPrimary(s: State)
    requires Inv(s) && s.main.ReturnErr?
    ensures |s.racers| == 2 && s.racers[0].primary && !s.racers[1].primary
    ensures s.racers[0].out == Failed(s.main.err) && s.racers[1].out.Failed?
    ensures s.racers[0].phase.Sent? && s.racers[1].phase.Sent?
  {
    assert RacerOk(s, 0) && RacerOk(s, 1);
  }

  /** No more steps of a racer or of the main loop. */
  ghost predicate AtRest(s: State) {
    forall t: Step :: Enabled(s, t) ==> false
  }

  /** The race cannot block: while the main loop waits, the timer runs, its time can be
      received, a racer is dialing, or its outcome can be sent. */
  lemma NeverStuck(s: State) returns (t: Step)
    requires Inv(s) && s.main.Loop?
    ensures Enabled(s, t)
  {
    assert RacerOk(s, 0) && (|s.racers| == 2 ==> RacerOk(s, 1));
    var stopped := s.timer.HeadStart? || s.timer.Due?;
    if stopped { t := Expire; }
    else if s.timer.Expired? { t := ReceiveTimer; }
    else if s.racers[0].phase.Dialing? { t := Finish(0, Conn); }
    else if s.racers[0].phase.Offering? { t := Send(0, stopped); }
    else if s.racers[1].phase.Dialing? { t := Finish(1, Conn); }
    else { t := Send(1, stopped); }
  }

  /** When the race is over and every racer done, every connection made is either the one
      returned, which is open, or was closed by its racer. */
  lemma NoLeak(s: State, i: nat)
    requires Inv(s) && AtRest(s) && i < |s.racers|
    ensures !s.main.Loop? && (s.racers[i].phase.Sent? || s.racers[i].phase.Dropped?)
    ensures s.racers[i].out.Conn? ==> (s.main == ReturnConn(i) <==> !s.racers[i].closed)
    ensures s.main == ReturnConn(i) ==> s.racers[i].out.Conn?
  {
    if s.main.Loop? {
      var t := NeverStuck(s);
      assert false;
    }
    assert RacerOk(s, i);
    assert !Enabled(s, Finish(i, Conn)) && !Enabled(s, Drop(i));
  }

  // ----- the race is finite

  function Weight(r: Racer): nat {
    match r.phase
    case Dialing => 2
    case Offering => 1
    case _ => 0
  }

  function Total(racers: seq<Racer>): nat {
    if racers == [] then 0 else Weight(racers[0]) + if |racers| > 1 then Weight(racers[1]) else 0
  }

  /** Steps left at most. */
  function Rank(s: State): nat {
    Total(s.racers) + (if |s.racers| < 2 then 3 else 0)
    + (if s.timer.HeadStart? || s.timer.Due? then 2 else if s.timer.Expired? then 1 else 0)
    + (if s.primary.None? then 3 else 0)
  }

  lemma RankDecreases(s: State, t: Step)
    requires Inv(s) && Enabled(s, t)
    ensures Rank(Next(s, t)) < Rank(s)
  {
    assert RacerOk(s, 0) && (|s.racers| == 2 ==> RacerOk(s, 1));
  }

  /** No run is longer than ten steps. */
  lemma {:induction false} RunIsShort(states: seq<State>, steps: seq<Step>, i: nat)
    requires IsRun(states, steps) && i < |states|
    ensures i + Rank(states[i]) <= 10
  {
    if i > 0 {
      RunIsShort(states, steps, i - 1);
      InvHolds(states, steps, i - 1);
      assert Moves(states[i - 1], steps[i - 1], states[i]);
      RankDecreases(states[i - 1], steps[i - 1]);
    }
  }

  // ----- dialSerial

  const SANE_MINIMUM: int := 2_000_000_000   // two seconds, in nanoseconds

  /** timeRemaining / addrsRemaining, or more if that is under two seconds. */
  function Allotment(left: int, remaining: nat): int
    requires left > 0 && remaining > 0
  {
    var share := left / remaining;
    if share >= SANE_MINIMUM then share else if left < SANE_MINIMUM then left else SANE_MINIMUM
  }

  /** An equal share at least, and no more than that or two seconds: with AllotmentBounds,
      that is all there is to know. */
  lemma AllotmentIsShare(left: int, remaining: nat)
    requires left > 0 && remaining > 0
    ensures var t := Allotment(left, remaining);
            left / remaining <= t && (t <= left / remaining || t <= SANE_MINIMUM)
  {
    Bits.DivNat(left, remaining);
  }

  /** A part of the time that is left: positive, an equal share at least, two seconds at
      least if so much is left, and no more than these ask for. */
  ghost predicate FairPart(t: int, left: int, remaining: nat)
    requires remaining > 0
  {
    && 0 < t <= left && left / remaining <= t && (t >= SANE_MINIMUM || t == left)
    && (t <= left / remaining || t <= SANE_MINIMUM)
  }

  /** There is only one such part. */
  lemma FairPartIsOne(t: int, u: int, left: int, remaining: nat)
    requires left > 0 && remaining > 0 && FairPart(t, left, remaining) && FairPart(u, left, remaining)
    ensures t == u
  {
    Bits.DivNat(left, remaining);
  }

  lemma AtLeast(a: nat, b: nat, q: nat)
    requires b > 0 && q * b <= a
    ensures q <= a / b
  {
    Bits.DivNat(a, b);
    var k := a / b;
    assert (k + 1) * b == k * b + b;
    if k < q { Bits.MulMono(k + 1, q, b); }
  }

  /** Each address gets some time, no more than is left, and at least two seconds or all
      that is left. */
  lemma AllotmentBounds(left: int, remaining: nat)
    requires left > 0 && remaining > 0
    ensures var t := Allotment(left, remaining); 0 < t <= left && (t >= SANE_MINIMUM || t == left)
    ensures remaining == 1 ==> Allotment(left, remaining) == left
  {
    Bits.DivNat(left, remaining);
  }

  /** An address that uses up its whole allotment, when that is an equal share, leaves the
      others no less. */
  lemma SharesDoNotShrink(left: int, remaining: nat)
    requires left > 0 && remaining > 1 && left / remaining >= SANE_MINIMUM
    ensures left > Allotment(left, remaining)
    ensures Allotment(left - Allotment(left, remaining), remaining - 1) >= Allotment(left, remaining)
  {
    Bits.DivNat(left, remaining);
    var q := left / remaining;
    assert q * remaining == q * (remaining - 1) + q;
    assert q * (remaining - 1) >= q * 1;
    AtLeast(left - q, remaining - 1, q);
  }

  /** The deadline for one address, None when there is no time left (errTimeout). */
  function PartialDeadline(now: int, deadline: int, remaining: nat): Option<int>
    requires remaining > 0
  {
    if deadline - now <= 0 then None else Some(now + Allotment(deadline - now, remaining))
  }

  datatype DialError = Cancelled(i: nat) | Timeout(i: nat) | Refused(i: nat, err: Error) | MissingAddress

  /** What the loop meets at one address: whether ctx is done, the time, and what
      dialSingle returns if it is called. */
  datatype Try = Try(done: bool, now: int, out: Outcome)

  datatype Dialled = Connected(i: nat) | Broken(err: DialError)

  /** dialSerial; uses records the deadline handed to dialSingle, None where it is ctx's own. */
  method DialSerial(tries: seq<Try>, deadline: Option<int>) returns (r: Dialled, uses: seq<Option<int>>)
    ensures |uses| <= |tries|
    ensures forall j :: 0 <= j < |uses| ==> Tried(tries, deadline, j, uses[j])
    ensures forall j :: 0 <= j < |uses| ==> FairlyTried(tries, deadline, j, uses[j])
    ensures r.Connected? ==> r.i < |tries| && |uses| == r.i + 1 && tries[r.i].out.Conn?
    ensures r.Connected? ==> forall j :: 0 <= j < r.i ==> tries[j].out.Failed?
    ensures r.Broken? ==> forall j :: 0 <= j < |uses| ==> tries[j].out.Failed?
    ensures r.Broken? ==> r.err == Reported(tries, deadline, |uses|)
    ensures r.Broken? && |uses| < |tries| ==> Stops(tries, deadline, |uses|)
  {
    var firstErr: Option<DialError> := None;
    uses := [];
    var i: nat := 0;
    while i < |tries|
      invariant i <= |tries| && |uses| == i
      invariant forall j :: 0 <= j < i ==> Tried(tries, deadline, j, uses[j]) && tries[j].out.Failed?
      invariant forall j :: 0 <= j < i ==> FairlyTried(tries, deadline, j, uses[j])
      invariant firstErr == if i == 0 then None else Some(Refused(0, tries[0].out.err))
    {
      if tries[i].done { return Broken(Cancelled(i)), uses; }
      var own: Option<int> := None;
      if deadline.Some? {
        var part := PartialDeadline(tries[i].now, deadline.value, |tries| - i);
        if part.None? {
          if firstErr.None? { firstErr := Some(Timeout(i)); }
          break;
        }
        if part.value < deadline.value { own := part; }
      }
      uses := uses + [own];
      TriedFairly(tries, deadline, i, own);
      if tries[i].out.Conn? { return Connected(i), uses; }
      if firstErr.None? { firstErr := Some(Refused(i, tries[i].out.err)); }
      i := i + 1;
    }
    if firstErr.None? { firstErr := Some(MissingAddress); }
    return Broken(firstErr.value), uses;
  }

  /** Address j is dialled, before the deadline, with its own part of the time. */
  ghost predicate Tried(tries: seq<Try>, deadline: Option<int>, j: nat, own: Option<int>)
    requires j < |tries|
  {
    && !tries[j].done
    && (deadline.None? ==> own.None?)
    && (deadline.Some? ==>
          var part := PartialDeadline(tries[j].now, deadline.value, |tries| - j);
          part.Some? && own == if part.value < deadline.value then part else None)
  }

  /** The dial of address j may last until its own deadline, or the caller's if it has none. */
  ghost predicate FairlyTried(tries: seq<Try>, deadline: Option<int>, j: nat, own: Option<int>)
    requires j < |tries|
  {
    && (deadline.None? ==> own.None?)
    && (deadline.Some? ==>
          var until := if own.Some? then own.value else deadline.value;
          FairPart(until - tries[j].now, deadline.value - tries[j].now, |tries| - j))
  }

  lemma TriedFairly(tries: seq<Try>, deadline: Option<int>, j: nat, own: Option<int>)
    requires j < |tries| && Tried(tries, deadline, j, own)
    ensures FairlyTried(tries, deadline, j, own)
  {
    if deadline.Some? {
      AllotmentBounds(deadline.value - tries[j].now, |tries| - j);
      AllotmentIsShare(deadline.value - tries[j].now, |tries| - j);
    }
  }

  ghost predicate Stops(tries: seq<Try>, deadline: Option<int>, j: nat)
    requires j < |tries|
  {
    tries[j].done || (deadline.Some? && deadline.value <= tries[j].now)
  }

  /** The error after j failed addresses: cancellation first, then the first address's. */
  ghost function Reported(tries: seq<Try>, deadline: Option<int>, j: nat): DialError
    requires j <= |tries|
  {
    if j < |tries| && tries[j].done then Cancelled(j)
    else if j > 0 && tries[0].out.Failed? then Refused(0, tries[0].out.err)
    else if j < |tries| then Timeout(j)
    else MissingAddress
  }

  /** Every dial has a deadline after its start and not after the caller's. */
  lemma OwnDeadline(tries: seq<Try>, deadline: Option<int>, j: nat, own: Option<int>)
    requires j < |tries| && Tried(tries, deadline, j, own) && deadline.Some?
    ensures tries[j].now < deadline.value && (own.Some? ==> tries[j].now < own.value < deadline.value)
    ensures own.None? <==> Allotment(deadline.value - tries[j].now, |tries| - j) == deadline.value - tries[j].now
    ensures j == |tries| - 1 ==> own.None?
  {
    AllotmentBounds(deadline.value - tries[j].now, |tries| - j);
  }
}
