/** What the invariant of the cancellation tree means for its users. */
module ContextRuns {

  import opened Common
  import opened Context
  import opened ContextSteps

  // ----- runs

  function Init(): State { State([Link(Background, 0, None)], [Blank(None)], map[], 0) }

  ghost predicate IsRun(states: seq<State>, steps: seq<Step>) {
    && |states| == |steps| + 1
    && states[0] == Init()
    && forall i :: 0 <= i < |steps| ==> Moves(states[i], steps[i], states[i + 1])
  }

  ghost predicate Moves(s: State, t: Step, s2: State) { Enabled(s, t) && s2 == Next(s, t) }

  lemma InitOk()
    ensures Inv(Init())
  {
  }

  lemma {:induction false} InvHolds(states: seq<State>, steps: seq<Step>, i: nat)
    requires IsRun(states, steps) && i < |states|
    ensures Inv(states[i])
  {
    hide Inv, Enabled, Next, Init;
    if i == 0 {
      InitOk();
    } else {
      InvHolds(states, steps, i - 1);
      assert Moves(states[i - 1], steps[i - 1], states[i]);
      StepKeeps(states[i - 1], steps[i - 1]);
    }
  }

  // ----- err and cause are set once, by the first call to lock the node

  ghost predicate Stable(s: State, s2: State, n: Id) {
    && n < |s.nodes| == |s.tree| && n < |s2.nodes| == |s2.tree| && s2.tree[n] == s.tree[n]
    && (s.nodes[n].why.Some? ==> s2.nodes[n].why == s.nodes[n].why && s2.nodes[n].direct == s.nodes[n].direct)
    && (DoneClosed(s.nodes[n]) ==> DoneClosed(s2.nodes[n]))
    && (!s.nodes[n].once.Fresh? ==> s2.nodes[n].once == s.nodes[n].once)
  }

  /** If n has been cancelled between s and s2, call a did it. */
  ghost predicate Taken(s: State, a: Act, s2: State, n: Id) {
    n < |s.nodes| && n < |s2.nodes| && s.nodes[n].why.None? && s2.nodes[n].why.Some? ==>
      && IsCall(s, a) && s.acts[a].n == n && s.acts[a].pc.Enter? && s.nodes[n].lock.None?
      && s2.nodes[n].why == Some(s.acts[a].why) && s2.nodes[n].direct == s.acts[a].direct
  }

  lemma CancelStable(s: State, a: Act, pick: Id, n: Id)
    requires Sane(s) && IsCall(s, a) && CanCancel(s, a, pick) && n < |s.nodes|
    requires s.acts[a].pc.Close? ==> s.nodes[s.acts[a].n].done != SharedClosed
    ensures Stable(s, CancelStep(s, a, pick), n) && Taken(s, a, CancelStep(s, a, pick), n)
  {
    hide Up, Anchor;
  }

  /** A constructor cancels nothing by itself. */
  lemma NewTouches(s: State, a: Act, past: bool, n: Id)
    requires Sane(s) && IsNew(s, a) && CanNew(s, a, past) && n < |s.nodes|
    ensures var s2 := NewStep(s, a, past); |s2.nodes| == |s.nodes| && s2.tree == s.tree
    ensures var x, y := s.nodes[n], NewStep(s, a, past).nodes[n];
            y.why == x.why && y.direct == x.direct && y.once == x.once
                && (y.done == x.done || y.done == WithDone(x).done)
  {
    hide Up, Anchor, DoneClosed;
  }

  lemma NewStable(s: State, a: Act, past: bool, n: Id)
    requires Sane(s) && IsNew(s, a) && CanNew(s, a, past) && n < |s.nodes|
    ensures Stable(s, NewStep(s, a, past), n) && Taken(s, a, NewStep(s, a, past), n)
  {
    hide Up, Anchor, NewStep, CanNew;
    NewTouches(s, a, past, n);
  }

  lemma StepStable(s: State, t: Step, n: Id)
    requires Inv(s) && Enabled(s, t) && n < |s.nodes|
    ensures Stable(s, Next(s, t), n)
    ensures Taken(s, if t.Advance? then t.a else s.next, Next(s, t), n)
  {
    hide Up, Anchor, Inv, CancelStep, NewStep, NewOk, NodeOk, LinkOk;
    Use(s, n, if t.Advance? then t.a else 0);
    if t.Advance? {
      if s.acts[t.a].Cancel? { CancelStable(s, t.a, t.pick, n); } else { NewStable(s, t.a, t.past, n); }
    }
  }

  lemma {:induction false} SetOnce(states: seq<State>, steps: seq<Step>, i: nat, j: nat, n: Id)
    requires IsRun(states, steps) && i <= j < |states| && n < |states[i].nodes|
    ensures Stable(states[i], states[j], n)
    decreases j
  {
    hide Inv, Enabled, Next, Init;
    InvHolds(states, steps, i);
    Use(states[i], n, 0);
    if i < j {
      SetOnce(states, steps, i, j - 1, n);
      InvHolds(states, steps, j - 1);
      assert Moves(states[j - 1], steps[j - 1], states[j]);
      StepStable(states[j - 1], steps[j - 1], n);
    }
  }

  // ----- what the user sees

  function Err(s: State, c: Id): Option<Error>
    requires Sane(s) && c < |s.nodes|
  {
    var a := Anchor(s.tree, c);
    if a.Some? && s.nodes[a.value].why.Some? then Some(s.nodes[a.value].why.value.err) else None
  }

  function Cause(s: State, c: Id): Option<Error>
    requires Sane(s) && c < |s.nodes|
  {
    var a := Anchor(s.tree, c);
    if Err(s, c).None? then None
    else if a.Some? && s.nodes[a.value].why.Some? then Some(s.nodes[a.value].why.value.cause)
    else Err(s, c)
  }

  /** p is c or an ancestor of c, with no WithoutCancel context in between. */
  ghost predicate Reaches(tree: seq<Link>, c: Id, p: Id)
    requires c < |tree|
    decreases c
  {
    || c == p
    || (!tree[c].kind.Without? && !tree[c].kind.Background? && tree[c].parent < c && Reaches(tree, tree[c].parent, p))
  }

  // ----- no call in progress

  /** A cancelled context is closed, forgotten by its children, and has stopped its
      timer or dealt with its function; another knows exactly its uncancelled children. */
  lemma QuietNode(s: State, n: Id)
    requires Inv(s) && s.acts == map[] && n < |s.nodes|
    ensures s.nodes[n].lock.None?
    ensures s.nodes[n].why.Some? <==> DoneClosed(s.nodes[n])
    ensures s.nodes[n].why.Some? ==> s.nodes[n].children == {} && !s.nodes[n].timer.Armed?
    ensures s.nodes[n].why.Some? && s.tree[n].kind.AfterFuncCtx? ==> !s.nodes[n].once.Fresh?
    ensures s.nodes[n].once.Started? ==> s.nodes[n].why.Some?
    ensures forall m: Id :: m in s.nodes[n].children <==>
      m < |s.nodes| && IsCancel(s.tree[m].kind) && Up(s.tree, m) == Some(n) && s.nodes[m].why.None?
          && s.nodes[n].why.None?
  {
    hide Up, Anchor, Inv;
    Use(s, n, 0);
    forall m: Id
      ensures m in s.nodes[n].children <==>
        m < |s.nodes| && IsCancel(s.tree[m].kind) && Up(s.tree, m) == Some(n) && s.nodes[m].why.None?
            && s.nodes[n].why.None?
    {
      Use(s, m, 0);
      UseChild(s, n, m);
    }
  }

  /** Every context derived from a cancelled one, other than through WithoutCancel, is
      cancelled. */
  lemma {:induction false} QuietTree(s: State, c: Id, p: Id)
    requires Inv(s) && s.acts == map[] && c < |s.nodes| && p < |s.nodes|
    requires Reaches(s.tree, c, p) && s.nodes[p].why.Some?
    ensures Anchor(s.tree, c).Some? && Err(s, c).Some? && DoneClosed(s.nodes[Anchor(s.tree, c).value])
    decreases c
  {
    hide Inv;
    QuietNode(s, p);
    Use(s, p, 0);
    Use(s, c, 0);
    if c != p {
      QuietTree(s, s.tree[c].parent, p);
      var up := Up(s.tree, c);
      if IsCancel(s.tree[c].kind) {
        QuietNode(s, up.value);
        QuietNode(s, c);
      }
    }
  }

  // ----- where a cause comes from

  /** The reason of a cancelled context is that of a context that was itself the target
      of a cancel call: the context or an ancestor not behind WithoutCancel. */
  lemma {:induction false} CauseSource(s: State, c: Id) returns (r: Id)
    requires Inv(s) && c < |s.nodes| && Err(s, c).Some?
    ensures r < |s.nodes| && Reaches(s.tree, c, r) && s.nodes[r].direct && IsCancel(s.tree[r].kind)
    ensures s.nodes[r].why.Some? && Err(s, c) == Some(s.nodes[r].why.value.err)
    ensures Cause(s, c) == Some(s.nodes[r].why.value.cause)
    decreases c
  {
    hide Inv, LinkOk;
    Use(s, c, 0);
    if !IsCancel(s.tree[c].kind) {
      r := CauseSource(s, s.tree[c].parent);
    } else if s.nodes[c].direct {
      r := c;
    } else {
      r := CauseSource(s, s.tree[c].parent);
    }
  }

  /** The deadline of n passes: its timer fires, or its constructor finds it in the past. */
  ghost predicate Expires(s: State, t: Step, n: Id) {
    && n < |s.tree| && s.tree[n].kind.TimerCtx?
    && (t == FireTimer(n) || (t.Advance? && t.past && t.a in s.acts && s.acts[t.a] == New(n, Deadline)))
  }

  /** The user's call, or the passing of the deadline, behind a direct cancellation. */
  ghost predicate Asks(s: State, t: Step, n: Id, why: Reason) {
    || (t.UserCancel? && t.n == n && why == Reason(Canceled, if t.cause.Some? then t.cause.value else Canceled))
    || (t.UserStop? && t.n == n && why == Reason(Canceled, Canceled))
    || (Expires(s, t, n) && why.err == DeadlineExceeded &&
        why.cause == if s.tree[n].late.Some? then s.tree[n].late.value else DeadlineExceeded)
  }

  ghost predicate Asked(states: seq<State>, steps: seq<Step>, n: Id, why: Reason) {
    exists i :: 0 <= i < |steps| && i < |states| && Asks(states[i], steps[i], n, why)
  }

  ghost predicate AllAsked(s: State, states: seq<State>, steps: seq<Step>) {
    && (forall n :: 0 <= n < |s.nodes| && s.nodes[n].why.Some? && s.nodes[n].direct ==>
          Asked(states, steps, n, s.nodes[n].why.value))
    && (forall a :: a in s.acts && s.acts[a].Cancel? && s.acts[a].direct ==>
          Asked(states, steps, s.acts[a].n, s.acts[a].why))
  }

  /** d was there already, or is the call that step t begins. */
  ghost predicate Sourced(s: State, t: Step, b: Act, d: Call)
    requires d.Cancel?
  {
    || (b in s.acts && s.acts[b].Cancel? && s.acts[b].direct && s.acts[b].n == d.n && s.acts[b].why == d.why)
    || Asks(s, t, d.n, d.why)
  }

  lemma CancelSource(s: State, t: Step, b: Act)
    requires Enabled(s, t) && t.Advance? && s.acts[t.a].Cancel?
    requires b in Next(s, t).acts && Next(s, t).acts[b].Cancel? && Next(s, t).acts[b].direct
    ensures Sourced(s, t, b, Next(s, t).acts[b])
  {
    hide Up, Anchor, CanCancel, CanNew, NewStep, Settled, WithDone, Skips, Asks;
    assert Next(s, t) == CancelStep(s, t.a, t.pick);
  }

  lemma NewSource(s: State, t: Step, b: Act)
    requires Enabled(s, t) && t.Advance? && s.acts[t.a].New?
    requires b in Next(s, t).acts && Next(s, t).acts[b].Cancel? && Next(s, t).acts[b].direct
    ensures Sourced(s, t, b, Next(s, t).acts[b])
  {
    hide Up, Anchor, CanCancel, CanNew, CancelStep, WithDone, DoneClosed;
    assert Next(s, t) == NewStep(s, t.a, t.past);
  }

  lemma ActSource(s: State, t: Step, b: Act)
    requires Inv(s) && Enabled(s, t) && b in Next(s, t).acts && Next(s, t).acts[b].Cancel? && Next(s, t).acts[b].direct
    ensures Sourced(s, t, b, Next(s, t).acts[b])
  {
    hide Up, Anchor, Inv, CanCancel, CanNew, CancelStep, NewStep;
    Use(s, 0, 0);
    if t.Advance? {
      if s.acts[t.a].Cancel? { CancelSource(s, t, b); } else { NewSource(s, t, b); }
    } else if t.FireTimer? {
      Use(s, t.n, 0);
    }
  }

  lemma AskedLater(states: seq<State>, steps: seq<Step>, s: State, t: Step, n: Id, why: Reason)
    requires |states| == |steps| && (Asked(states, steps, n, why) || Asks(s, t, n, why))
    ensures Asked(states + [s], steps + [t], n, why)
  {
    hide Asks;
    if Asks(s, t, n, why) {
      assert (steps + [t])[|steps|] == t && (states + [s])[|steps|] == s;
    } else {
      var i :| 0 <= i < |steps| && i < |states| && Asks(states[i], steps[i], n, why);
      assert (steps + [t])[i] == steps[i] && (states + [s])[i] == states[i];
    }
  }

  lemma StepAsks(s: State, t: Step, states: seq<State>, steps: seq<Step>)
    requires Inv(s) && Enabled(s, t) && |states| == |steps| && AllAsked(s, states, steps)
    ensures AllAsked(Next(s, t), states + [s], steps + [t])
  {
    hide Up, Anchor, Inv, Enabled, Next, Asks, Asked;
    var s2 := Next(s, t);
    forall n | 0 <= n < |s2.nodes| && s2.nodes[n].why.Some? && s2.nodes[n].direct
      ensures Asked(states + [s], steps + [t], n, s2.nodes[n].why.value)
    {
      NodeAsked(s, t, states, steps, n);
    }
    forall b | b in s2.acts && s2.acts[b].Cancel? && s2.acts[b].direct
      ensures Asked(states + [s], steps + [t], s2.acts[b].n, s2.acts[b].why)
    {
      ActSource(s, t, b);
      AskedLater(states, steps, s, t, s2.acts[b].n, s2.acts[b].why);
    }
  }

  lemma NodeAsked(s: State, t: Step, states: seq<State>, steps: seq<Step>, n: Id)
    requires Inv(s) && Enabled(s, t) && |states| == |steps| && AllAsked(s, states, steps) && n < |Next(s, t).nodes|
    requires Next(s, t).nodes[n].why.Some? && Next(s, t).nodes[n].direct
    ensures Asked(states + [s], steps + [t], n, Next(s, t).nodes[n].why.value)
  {
    hide Up, Anchor, Inv, Asks, Asked, CancelStep, NewStep, CanCancel, CanNew;
    if n < |s.nodes| {
      StepStable(s, t, n);
      AskedLater(states, steps, s, t, n, Next(s, t).nodes[n].why.value);
    } else if t.Advance? {
      SameSize(s, t);
    }
  }

  lemma SameSize(s: State, t: Step)
    requires Enabled(s, t) && t.Advance?
    ensures |Next(s, t).nodes| == |s.nodes|
  {
    hide Anchor, DoneClosed, WithDone, Settled;
  }

  lemma NothingAsked()
    ensures AllAsked(Init(), [], [])
  {
  }

  lemma OneLonger<T>(a: seq<T>, i: nat)
    requires 0 < i <= |a|
    ensures a[..i] == a[..i - 1] + [a[i - 1]]
  {
  }

  lemma {:induction false} RunAsks(states: seq<State>, steps: seq<Step>, i: nat)
    requires IsRun(states, steps) && i < |states|
    ensures AllAsked(states[i], states[..i], steps[..i])
  {
    hide Inv, Enabled, Next, AllAsked, Init;
    if i == 0 {
      NothingAsked();
      assert states[..i] == [] && steps[..i] == [];
    } else {
      RunAsks(states, steps, i - 1);
      InvHolds(states, steps, i - 1);
      assert Moves(states[i - 1], steps[i - 1], states[i]);
      StepAsks(states[i - 1], steps[i - 1], states[..i - 1], steps[..i - 1]);
      OneLonger(states, i);
      OneLonger(steps, i);
    }
  }

  /** At every point of every run, the error and cause of a cancelled context come from an
      earlier call to cancel or stop, or from the passing of the deadline, of the context
      or an ancestor. */
  lemma CauseWasAsked(states: seq<State>, steps: seq<Step>, i: nat, c: Id) returns (r: Id)
    requires IsRun(states, steps) && i < |states| && Sane(states[i]) && c < |states[i].nodes| && Err(states[i], c).Some?
    ensures r < |states[i].nodes| && Reaches(states[i].tree, c, r) && Cause(states[i], c).Some?
    ensures Asked(states[..i], steps[..i], r, Reason(Err(states[i], c).value, Cause(states[i], c).value))
  {
    hide Inv, Enabled, Next, Init, Err, Cause, Asked;
    InvHolds(states, steps, i);
    r := CauseSource(states[i], c);
    RunAsks(states, steps, i);
  }

  // ----- no deadlock

  /** A callee whose context is unlocked, and that has no parent to be removed from, moves. */
  lemma CalleeMoves(s: State, b: Act) returns (t: Step)
    requires Inv(s) && IsCall(s, b) && !s.acts[b].rm && s.nodes[s.acts[b].n].lock.None?
    ensures t.Advance? && Enabled(s, t)
  {
    hide Inv, Up, Anchor;
    Use(s, s.acts[b].n, b);
    t := Advance(b, 0, false);
  }

  /** The holder of a lock below which nothing is locked moves, or its callee does. */
  lemma HolderMoves(s: State, n: Id) returns (t: Step)
    requires Inv(s) && n < |s.nodes| && s.nodes[n].lock.Some?
    requires forall k :: n < k < |s.nodes| ==> s.nodes[k].lock.None?
    ensures t.Advance? && Enabled(s, t)
  {
    hide Inv, Up, Anchor;
    var h := s.nodes[n].lock.value;
    Use(s, n, h);
    if s.acts[h].Cancel? {
      var pc := s.acts[h].pc;
      if pc.Child? {
        UseChild(s, n, pc.m);
        t := CalleeMoves(s, pc.callee);
      } else {
        var k: Id :| !pc.Loop? || pc.todo == {} || k in pc.todo;
        t := Advance(h, k, false);
      }
    } else if s.acts[h].npc.CallingHeld? {
      t := CalleeMoves(s, s.acts[h].npc.callee);
    } else {
      t := Advance(h, 0, false);
    }
  }

  lemma UnlockedMoves(s: State, a: Act) returns (t: Step)
    requires Inv(s) && a in s.acts && forall k :: 0 <= k < |s.nodes| ==> s.nodes[k].lock.None?
    ensures t.Advance? && Enabled(s, t)
  {
    hide Inv, Up, Anchor;
    Use(s, s.acts[a].n, a);
    if s.acts[a].Cancel? {
      t := UnlockedCall(s, a);
    } else {
      var up := Up(s.tree, s.acts[a].n);
      assert up.Some? ==> s.nodes[up.value].lock.None?;
      match s.acts[a].npc
      case Calling(b) => t := CalleeMoves(s, b);
      case Expiring(b) => t := UnlockedCall(s, b);
      case CallingHeld(b) => assert false;
      case _ => t := Advance(a, 0, false);
    }
  }

  lemma UnlockedCall(s: State, a: Act) returns (t: Step)
    requires Inv(s) && IsCall(s, a) && forall k :: 0 <= k < |s.nodes| ==> s.nodes[k].lock.None?
    ensures t.Advance? && Enabled(s, t)
  {
    hide Inv, Up, Anchor;
    Use(s, s.acts[a].n, a);
    t := Advance(a, 0, false);
  }

  /** The highest locked context below k. */
  lemma {:induction false} TopLock(s: State, k: nat) returns (n: Id)
    requires k <= |s.nodes|
    ensures n < k ==> s.nodes[n].lock.Some?
    ensures forall i :: 0 <= i < k && (n >= k || i > n) ==> s.nodes[i].lock.None?
  {
    if k == 0 { n := 0; }
    else if s.nodes[k - 1].lock.Some? { n := k - 1; }
    else {
      n := TopLock(s, k - 1);
      if n >= k - 1 { n := k; }
    }
  }

  /** While any call is in progress, one of them can move: the locks, taken parent before
      child, never deadlock, and no call waits for a branch that library contexts lack. */
  lemma NoDeadlock(s: State) returns (t: Step)
    requires Inv(s) && s.acts != map[]
    ensures t.Advance? && Enabled(s, t)
  {
    hide Inv, Enabled;
    var a: Act :| a in s.acts;
    var n := TopLock(s, |s.nodes|);
    if n < |s.nodes| { t := HolderMoves(s, n); } else { t := UnlockedMoves(s, a); }
  }

  /** propagateCancel never gets as far as its afterFuncer and goroutine branches. */
  lemma NoFallback(s: State, a: Act)
    requires Inv(s) && a in s.acts && s.acts[a].New?
    ensures !s.acts[a].npc.Fallback?
  {
    hide Inv, Up, Anchor;
    Use(s, 0, a);
  }

  // ----- the lookup loop

  /** `value(c, &cancelCtxKey)` */
  method Value(tree: seq<Link>, c: Id) returns (r: Option<Id>)
    requires c < |tree|
    ensures r == Anchor(tree, c)
  {
    var i: Id := c;
    while true
      invariant i < |tree| && Anchor(tree, i) == Anchor(tree, c)
      decreases i
    {
      if IsCancel(tree[i].kind) { return Some(i); }
      if !tree[i].kind.Plain? || tree[i].parent >= i { return None; }
      i := tree[i].parent;
    }
  }
}
