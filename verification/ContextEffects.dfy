/** What a deadline, a call of cancel and a call of stop do to the tree, once it has come
    to rest: exactly the contexts derived from the one named are cancelled, with exactly
    its error and cause. */
module ContextEffects {

  import opened Common
  import opened Context
  import opened ContextSteps
  import opened ContextRuns
  import opened ContextProgress

  // ----- an uncancelled context with a deadline has its timer

  predicate AboutTo(c: Call, n: Id) { c.Cancel? && c.n == n && c.pc.Enter? }

  ghost predicate SomeAboutTo(s: State, n: Id) { exists a :: a in s.acts && AboutTo(s.acts[a], n) }

  /** The constructor has yet to make the timer. */
  ghost predicate Arming(s: State, n: Id)
    requires n < |s.nodes|
  {
    Registrar(s, n) && var pc := s.acts[s.nodes[n].reg.value].npc; !pc.Publish? && !pc.Expiring?
  }

  ghost predicate TimerOk(s: State, n: Id)
    requires Sane(s) && n < |s.nodes|
  {
    var x := s.nodes[n];
    s.tree[n].kind.TimerCtx? && x.why.None? ==>
      match x.timer
      case Armed => true
      case Fired => SomeAboutTo(s, n)
      case NoTimer => Arming(s, n)
      case Passed => true
  }

  ghost predicate TimersOk(s: State) { Sane(s) && forall n :: 0 <= n < |s.nodes| ==> TimerOk(s, n) }

  /** A call that is about to cancel n stays so, or has cancelled it. */
  lemma AboutStays(s: State, a: Act, pick: Id, n: Id)
    requires Inv(s) && Sane(s) && IsCall(s, a) && CanCancel(s, a, pick) && n < |s.nodes| && SomeAboutTo(s, n)
    ensures var s2 := CancelStep(s, a, pick);
            |s2.nodes| == |s.nodes| && (s2.nodes[n].why.Some? || SomeAboutTo(s2, n))
  {
    hide Inv, Up, Anchor, Settled;
    Use(s, n, s.next);
    var b :| b in s.acts && AboutTo(s.acts[b], n);
    if b != a { assert b in CancelStep(s, a, pick).acts && AboutTo(CancelStep(s, a, pick).acts[b], n); }
  }

  lemma AboutStaysNew(s: State, a: Act, past: bool, n: Id)
    requires Inv(s) && Sane(s) && IsNew(s, a) && CanNew(s, a, past) && SomeAboutTo(s, n)
    ensures SomeAboutTo(NewStep(s, a, past), n)
  {
    hide Inv, Up, Anchor, DoneClosed;
    Use(s, n, s.next);
    var b :| b in s.acts && AboutTo(s.acts[b], n);
    assert b in NewStep(s, a, past).acts && AboutTo(NewStep(s, a, past).acts[b], n);
  }

  lemma ArmingStays(s: State, a: Act, pick: Id, n: Id)
    requires Sane(s) && IsCall(s, a) && CanCancel(s, a, pick) && n < |s.nodes| && Arming(s, n)
    requires s.next !in s.acts
    ensures Sane(CancelStep(s, a, pick)) && n < |CancelStep(s, a, pick).nodes| && Arming(CancelStep(s, a, pick), n)
  {
    hide Up, Anchor;
  }

  /** As long as n is not cancelled, no call of cancel touches its timer. */
  lemma TimerKept(s: State, a: Act, pick: Id, n: Id)
    requires Inv(s) && Sane(s) && IsCall(s, a) && CanCancel(s, a, pick) && n < |s.nodes|
    ensures var s2 := CancelStep(s, a, pick);
            && Sane(s2) && n < |s2.nodes| && s2.tree == s.tree
            && (s2.nodes[n].why.None? ==> s.nodes[n].why.None? && s2.nodes[n].timer == s.nodes[n].timer)
  {
    hide Inv, Up, Anchor, NodeOk, LinkOk, NewOk;
    Use(s, n, a);
  }

  lemma CancelTimer(s: State, a: Act, pick: Id, n: Id)
    requires Inv(s) && TimersOk(s) && IsCall(s, a) && CanCancel(s, a, pick) && n < |s.nodes|
    ensures Sane(CancelStep(s, a, pick)) && n < |CancelStep(s, a, pick).nodes| && TimerOk(CancelStep(s, a, pick), n)
  {
    hide Inv, CanCancel, CancelStep, SomeAboutTo, Arming;
    TimerKept(s, a, pick, n);
    assert TimerOk(s, n);
    if SomeAboutTo(s, n) { AboutStays(s, a, pick, n); }
    if Arming(s, n) {
      Use(s, n, s.next);
      ArmingStays(s, a, pick, n);
    }
  }

  /** The constructor that arms n, or another one, moves on. */
  lemma ArmingMoves(s: State, a: Act, past: bool, n: Id)
    requires Inv(s) && Sane(s) && IsNew(s, a) && CanNew(s, a, past) && n < |s.nodes|
    ensures var s2 := NewStep(s, a, past);
            && Sane(s2) && n < |s2.nodes| && s2.tree == s.tree && s2.nodes[n].why == s.nodes[n].why
            && (s2.nodes[n].timer == s.nodes[n].timer || s2.nodes[n].timer.Armed? || s2.nodes[n].timer.Passed?)
  {
    hide Inv, Up, Anchor, DoneClosed, NodeOk, LinkOk, NewOk, CancelOk;
  }

  /** A constructor leaves the calls and constructors of other contexts alone. */
  lemma OthersKept(s: State, a: Act, past: bool, b: Act, n: Id)
    requires Sane(s) && IsNew(s, a) && CanNew(s, a, past) && b in s.acts && b != a && s.next !in s.acts
    requires n < |s.nodes| && n != s.acts[a].n
    ensures var s2 := NewStep(s, a, past);
            b in s2.acts && s2.acts[b] == s.acts[b] && |s2.nodes| == |s.nodes| && s2.nodes[n].reg == s.nodes[n].reg
  {
    hide Up, Anchor, DoneClosed;
  }

  lemma OwnArming(s: State, a: Act, past: bool)
    requires Sane(s) && IsNew(s, a) && CanNew(s, a, past) && s.next !in s.acts
    requires var n := s.acts[a].n; s.nodes[n].reg == Some(a) && s.tree[n].kind.TimerCtx? && s.nodes[n].why.None?
    requires !s.acts[a].npc.Publish? && !s.acts[a].npc.Expiring?
    requires NewStep(s, a, past).nodes[s.acts[a].n].timer.NoTimer?
    ensures Arming(NewStep(s, a, past), s.acts[a].n)
  {
    hide Up, Anchor, DoneClosed;
  }

  lemma StillArming(s: State, a: Act, past: bool, n: Id)
    requires Inv(s) && Sane(s) && IsNew(s, a) && CanNew(s, a, past) && n < |s.nodes| && Arming(s, n)
    requires s.tree[n].kind.TimerCtx? && s.nodes[n].why.None?
    requires n < |NewStep(s, a, past).nodes| && NewStep(s, a, past).nodes[n].timer.NoTimer?
    ensures Arming(NewStep(s, a, past), n)
  {
    hide Inv, Up, Anchor, CanNew, NewStep, NodeOk, LinkOk;
    Use(s, n, a);
    Use(s, n, s.next);
    if n == s.acts[a].n { OwnArming(s, a, past); } else { OthersKept(s, a, past, s.nodes[n].reg.value, n); }
  }

  lemma NewTimer(s: State, a: Act, past: bool, n: Id)
    requires Inv(s) && TimersOk(s) && IsNew(s, a) && CanNew(s, a, past) && n < |s.nodes|
    ensures Sane(NewStep(s, a, past)) && n < |NewStep(s, a, past).nodes| && TimerOk(NewStep(s, a, past), n)
  {
    hide Inv, CanNew, NewStep, SomeAboutTo, Arming;
    ArmingMoves(s, a, past, n);
    assert TimerOk(s, n);
    if SomeAboutTo(s, n) { AboutStaysNew(s, a, past, n); }
    if Arming(s, n) && s.tree[n].kind.TimerCtx? && s.nodes[n].why.None? && NewStep(s, a, past).nodes[n].timer.NoTimer? {
      StillArming(s, a, past, n);
    }
  }

  /** A step of the user or of a timer leaves the calls alone, and n but for its own timer. */
  lemma UserKeeps(s: State, t: Step, n: Id)
    requires Inv(s) && Enabled(s, t) && !t.Advance? && n < |s.nodes|
    ensures var s2 := Next(s, t);
            && Sane(s2) && n < |s2.nodes| && s2.tree[n] == s.tree[n]
            && (forall b :: b in s.acts ==> b in s2.acts && s2.acts[b] == s.acts[b])
            && s2.nodes[n].why == s.nodes[n].why && s2.nodes[n].reg == s.nodes[n].reg
            && (t != FireTimer(n) ==> s2.nodes[n].timer == s.nodes[n].timer)
            && (t == FireTimer(n) ==> s2.nodes[n].timer.Fired? && s.next in s2.acts && AboutTo(s2.acts[s.next], n))
  {
    hide Inv, Up, Anchor, CanCancel, CanNew, CancelStep, NewStep, NodeOk, LinkOk;
    Use(s, n, s.next);
  }

  lemma UserTimer(s: State, t: Step, n: Id)
    requires Inv(s) && TimersOk(s) && Enabled(s, t) && !t.Advance? && Sane(Next(s, t)) && n < |Next(s, t).nodes|
    ensures TimerOk(Next(s, t), n)
  {
    if n < |s.nodes| {
      hide Inv, Enabled, Next;
      UserKeeps(s, t, n);
      assert TimerOk(s, n);
      if SomeAboutTo(s, n) {
        var b :| b in s.acts && AboutTo(s.acts[b], n);
        assert b in Next(s, t).acts && AboutTo(Next(s, t).acts[b], n);
      }
    } else {
      hide Inv, Up, Anchor, CanCancel, CanNew, CancelStep, NewStep;
    }
  }

  lemma StepTimers(s: State, t: Step)
    requires Inv(s) && TimersOk(s) && Enabled(s, t)
    ensures TimersOk(Next(s, t))
  {
    hide Inv, TimerOk, CancelStep, NewStep, CanCancel, CanNew;
    StepKeeps(s, t);
    Use(Next(s, t), 0, 0);
    if t.Advance? { SameSize(s, t); }
    forall n | 0 <= n < |Next(s, t).nodes| ensures TimerOk(Next(s, t), n) {
      if !t.Advance? { UserTimer(s, t, n); }
      else if s.acts[t.a].Cancel? { CancelTimer(s, t.a, t.pick, n); }
      else { NewTimer(s, t.a, t.past, n); }
    }
  }

  lemma {:induction false} TimersHold(states: seq<State>, steps: seq<Step>, i: nat)
    requires IsRun(states, steps) && i < |states|
    ensures TimersOk(states[i])
  {
    if i > 0 {
      hide Inv, Enabled, Next, TimersOk;
      TimersHold(states, steps, i - 1);
      InvHolds(states, steps, i - 1);
      assert Moves(states[i - 1], steps[i - 1], states[i]);
      StepTimers(states[i - 1], steps[i - 1]);
    }
  }

  /** At rest, in every run: an uncancelled context with a deadline has an armed timer, and
      so can expire. */
  lemma QuietTimer(states: seq<State>, steps: seq<Step>, i: nat, n: Id)
    requires IsRun(states, steps) && i < |states| && states[i].acts == map[] && Sane(states[i])
    requires n < |states[i].nodes| && states[i].tree[n].kind.TimerCtx? && states[i].nodes[n].why.None?
    ensures states[i].nodes[n].timer.Armed? && Enabled(states[i], FireTimer(n))
  {
    hide Inv, Init, Next;
    InvHolds(states, steps, i);
    TimersHold(states, steps, i);
    Use(states[i], n, 0);
    assert TimerOk(states[i], n);
  }

  // ----- derived contexts

  lemma {:induction false} ReachesThrough(tree: seq<Link>, c: Id, p: Id, q: Id)
    requires c < |tree| && p < |tree| && Reaches(tree, c, p) && Reaches(tree, p, q)
    ensures Reaches(tree, c, q)
    decreases c
  {
    if c != p { ReachesThrough(tree, tree[c].parent, p, q); }
  }

  lemma {:induction false} AnchorReached(tree: seq<Link>, c: Id)
    requires c < |tree| && Anchor(tree, c).Some?
    ensures Reaches(tree, c, Anchor(tree, c).value)
    decreases c
  {
    if !IsCancel(tree[c].kind) { AnchorReached(tree, tree[c].parent); }
  }

  lemma UpReached(tree: seq<Link>, c: Id)
    requires c < |tree| && IsCancel(tree[c].kind) && Up(tree, c).Some?
    ensures Reaches(tree, c, Up(tree, c).value)
  {
    AnchorReached(tree, tree[c].parent);
  }

  /** `value(c, &cancelCtxKey)` is the innermost cancelCtx that c is, or is derived from. */
  lemma {:induction false} AnchorIsInnermost(tree: seq<Link>, c: Id, p: Id)
    requires c < |tree| && p < |tree| && IsCancel(tree[p].kind) && Reaches(tree, c, p)
    ensures Anchor(tree, c).Some? && Reaches(tree, Anchor(tree, c).value, p) && p <= Anchor(tree, c).value
    decreases c
  {
    if !IsCancel(tree[c].kind) {
      AnchorIsInnermost(tree, tree[c].parent, p);
    } else {
      ReachedIsBelow(tree, c, p);
    }
  }

  lemma {:induction false} ReachedIsBelow(tree: seq<Link>, c: Id, p: Id)
    requires c < |tree| && Reaches(tree, c, p)
    ensures p <= c
    decreases c
  {
    if c != p { ReachedIsBelow(tree, tree[c].parent, p); }
  }

  // ----- a cancellation spreads

  /** What has happened to node n since s0, because root is being cancelled for w. */
  ghost predicate Touched1(s0: State, s: State, root: Id, w: Reason, n: Id)
    requires Sane(s0) && n < |s0.nodes| && |s.nodes| == |s0.nodes|
  {
    var x, y := s0.nodes[n], s.nodes[n];
    && (y.why == x.why || (x.why.None? && y.why == Some(w) && Reaches(s0.tree, n, root)))
    && (y.once == x.once || (x.once.Fresh? && y.once.Started? && s0.tree[n].kind.AfterFuncCtx?))
  }

  ghost predicate Spreading(s0: State, s: State, root: Id, w: Reason) {
    && Sane(s0) && s.tree == s0.tree && |s.nodes| == |s0.nodes| && root < |s0.nodes|
    && (forall a :: a in s.acts ==> Spreads(s, s.acts[a], root, w))
    && (forall n :: 0 <= n < |s0.nodes| ==> Touched1(s0, s, root, w, n))
    && (s.nodes[root].why.Some? || SomeAboutTo(s, root))
  }

  ghost predicate Spreads(s: State, c: Call, root: Id, w: Reason) {
    c.Cancel? && c.why == w && c.n < |s.tree| && Reaches(s.tree, c.n, root)
  }

  lemma CallsSpread(s0: State, s: State, a: Act, pick: Id, root: Id, w: Reason, b: Act)
    requires Inv(s) && Spreading(s0, s, root, w) && IsCall(s, a) && CanCancel(s, a, pick)
    requires Sane(s) && b in CancelStep(s, a, pick).acts
    ensures Spreads(CancelStep(s, a, pick), CancelStep(s, a, pick).acts[b], root, w)
  {
    hide Inv, Up, Anchor, Settled, Touched1, SomeAboutTo;
    Use(s, s.acts[a].n, a);
    assert Spreads(s, s.acts[a], root, w);
    if b in s.acts { assert Spreads(s, s.acts[b], root, w); }
    if s.acts[a].pc.Loop? && s.acts[a].pc.todo != {} {
      UseChild(s, s.acts[a].n, pick);
      UpReached(s.tree, pick);
      ReachesThrough(s.tree, pick, s.acts[a].n, root);
    }
  }

  lemma NodeSpreads(s0: State, s: State, a: Act, pick: Id, root: Id, w: Reason, n: Id)
    requires Inv(s) && Spreading(s0, s, root, w) && IsCall(s, a) && CanCancel(s, a, pick)
    requires Sane(s) && n < |s0.nodes|
    ensures |CancelStep(s, a, pick).nodes| == |s0.nodes| && CancelStep(s, a, pick).tree == s.tree
    ensures Touched1(s0, CancelStep(s, a, pick), root, w, n)
  {
    hide Inv, Up, Anchor, Reaches, SomeAboutTo;
    assert Spreads(s, s.acts[a], root, w) && Touched1(s0, s, root, w, n);
  }

  lemma StepSpreads(s0: State, s: State, t: Step, root: Id, w: Reason)
    requires Inv(s) && Spreading(s0, s, root, w) && Enabled(s, t) && t.Advance?
    ensures Spreading(s0, Next(s, t), root, w)
  {
    hide Inv, CancelStep, CanCancel, CanNew, NewStep, Touched1, SomeAboutTo, Reaches;
    assert Spreads(s, s.acts[t.a], root, w);
    var s2 := Next(s, t);
    NodeSpreads(s0, s, t.a, t.pick, root, w, root);
    forall n | 0 <= n < |s0.nodes| ensures Touched1(s0, s2, root, w, n) {
      NodeSpreads(s0, s, t.a, t.pick, root, w, n);
    }
    forall b | b in s2.acts ensures Spreads(s2, s2.acts[b], root, w) {
      CallsSpread(s0, s, t.a, t.pick, root, w, b);
    }
    if s.nodes[root].why.Some? { StepStable(s, t, root); } else { AboutStays(s, t.a, t.pick, root); }
  }

  lemma {:induction false} LeadsSpreads(s0: State, s: State, steps: seq<Step>, s2: State, root: Id, w: Reason)
    requires Inv(s) && Spreading(s0, s, root, w) && Leads(s, steps, s2)
    ensures Inv(s2) && Spreading(s0, s2, root, w)
    decreases |steps|
  {
    hide Inv, Spreading, Enabled, Next;
    if steps != [] {
      StepSpreads(s0, s, steps[0], root, w);
      StepKeeps(s, steps[0]);
      LeadsSpreads(s0, Next(s, steps[0]), steps[1..], s2, root, w);
    }
  }

  // ----- the effect on every context

  /** s2 differs from s0 in that the contexts derived from root that were not cancelled, and
      no others, are cancelled for w, and have had their functions started. */
  ghost predicate Cancelled(s0: State, s2: State, root: Id, w: Reason) {
    && Sane(s0) && Sane(s2) && s2.tree == s0.tree
    && (forall c :: 0 <= c < |s0.nodes| ==> CancelledAt(s0, s2, root, w, c))
  }

  ghost predicate CancelledAt(s0: State, s2: State, root: Id, w: Reason, c: Id)
    requires Sane(s0) && Sane(s2) && s2.tree == s0.tree && c < |s0.nodes|
  {
    var hit := Reaches(s0.tree, c, root) && Err(s0, c).None?;
    && Err(s2, c) == (if hit then Some(w.err) else Err(s0, c))
    && Cause(s2, c) == (if hit then Some(w.cause) else Cause(s0, c))
    && s2.nodes[c].once ==
       if hit && s0.tree[c].kind.AfterFuncCtx? && s0.nodes[c].once.Fresh? then Started else s0.nodes[c].once
  }

  lemma RestErr(s0: State, s2: State, root: Id, w: Reason, c: Id)
    requires Inv(s2) && Spreading(s0, s2, root, w) && Sane(s2) && s2.acts == map[]
    requires IsCancel(s0.tree[root].kind) && c < |s0.nodes|
    ensures var hit := Reaches(s0.tree, c, root) && Err(s0, c).None?;
            && Err(s2, c) == (if hit then Some(w.err) else Err(s0, c))
            && Cause(s2, c) == (if hit then Some(w.cause) else Cause(s0, c))
  {
    hide Inv, Up, Reaches, Anchor;
    var at := Anchor(s0.tree, c);
    if at.Some? {
      assert Touched1(s0, s2, root, w, at.value);
      AnchorReached(s0.tree, c);
      if Reaches(s0.tree, at.value, root) { ReachesThrough(s0.tree, c, at.value, root); }
    }
    if Reaches(s0.tree, c, root) {
      AnchorIsInnermost(s0.tree, c, root);
      QuietTree(s2, c, root);
    }
  }

  /** A cancelled context of AfterFunc has dealt with its function. */
  ghost predicate FuncsDone(s: State) {
    Sane(s) && forall c :: 0 <= c < |s.nodes| ==> FuncDone(s.tree[c], s.nodes[c])
  }

  predicate FuncDone(l: Link, x: Node) { l.kind.AfterFuncCtx? && x.why.Some? ==> !x.once.Fresh? }

  lemma RestOnce(s0: State, s2: State, root: Id, w: Reason, c: Id)
    requires FuncsDone(s0) && Inv(s2) && Spreading(s0, s2, root, w) && Sane(s2) && s2.acts == map[]
    requires IsCancel(s0.tree[root].kind) && c < |s0.nodes|
    ensures var hit := Reaches(s0.tree, c, root) && Err(s0, c).None?;
            s2.nodes[c].once ==
            if hit && s0.tree[c].kind.AfterFuncCtx? && s0.nodes[c].once.Fresh? then Started else s0.nodes[c].once
  {
    RestErr(s0, s2, root, w, c);
    hide Inv, Up, Reaches, Cause;
    assert Touched1(s0, s2, root, w, c);
    QuietNode(s2, c);
    assert FuncDone(s0.tree[c], s0.nodes[c]);
  }

  lemma AtRest(s0: State, s: State, steps: seq<Step>, s2: State, root: Id, w: Reason)
    requires FuncsDone(s0) && Inv(s) && Spreading(s0, s, root, w) && IsCancel(s0.tree[root].kind)
    requires Leads(s, steps, s2) && s2.acts == map[]
    ensures Inv(s2) && Cancelled(s0, s2, root, w)
  {
    hide Inv, Leads, Err, Cause, Reaches, FuncDone;
    LeadsSpreads(s0, s, steps, s2, root, w);
    forall c | 0 <= c < |s0.nodes| ensures CancelledAt(s0, s2, root, w, c) {
      RestErr(s0, s2, root, w, c);
      RestOnce(s0, s2, root, w, c);
    }
  }

  lemma QuietFuncs(s: State)
    requires Inv(s) && s.acts == map[]
    ensures FuncsDone(s)
  {
    hide Inv;
    Use(s, 0, 0);
    forall c | 0 <= c < |s.nodes| ensures FuncDone(s.tree[c], s.nodes[c]) { QuietNode(s, c); }
  }

  lemma SelfReached(tree: seq<Link>, c: Id)
    requires c < |tree|
    ensures Reaches(tree, c, c)
  {
  }

  /** At rest, cancel(u) on n, and any steps by which the tree comes to rest again: the
      contexts derived from n are cancelled with Canceled and cause u, or Canceled if u is
      nil; those cancelled before, and all others, are as they were. */
  lemma CancelEffect(s0: State, n: Id, u: Option<Error>, steps: seq<Step>, s2: State)
    requires Inv(s0) && s0.acts == map[] && Enabled(s0, UserCancel(n, u))
    requires Leads(Next(s0, UserCancel(n, u)), steps, s2) && s2.acts == map[]
    ensures Cancelled(s0, s2, n, Reason(Canceled, if u.Some? then u.value else Canceled))
  {
    hide Inv, Up, Anchor, CanCancel, CanNew, CancelStep, NewStep, Reaches, Cancelled, Leads;
    var w := Reason(Canceled, if u.Some? then u.value else Canceled);
    var s1 := Next(s0, UserCancel(n, u));
    StepKeeps(s0, UserCancel(n, u));
    QuietFuncs(s0);
    SelfReached(s0.tree, n);
    assert s0.next in s1.acts && AboutTo(s1.acts[s0.next], n);
    AtRest(s0, s1, steps, s2, n, w);
  }

  /** The same when the timer of n fires: DeadlineExceeded, with the cause given to
      WithDeadlineCause if there was one. */
  lemma TimerEffect(s0: State, n: Id, steps: seq<Step>, s2: State)
    requires Inv(s0) && s0.acts == map[] && Enabled(s0, FireTimer(n))
    requires Leads(Next(s0, FireTimer(n)), steps, s2) && s2.acts == map[]
    ensures var late := s0.tree[n].late;
            Cancelled(s0, s2, n, Reason(DeadlineExceeded, if late.Some? then late.value else DeadlineExceeded))
  {
    hide Inv, Up, Anchor, CanCancel, CanNew, CancelStep, NewStep, Reaches, Leads;
    var late := s0.tree[n].late;
    var w := Reason(DeadlineExceeded, if late.Some? then late.value else DeadlineExceeded);
    var s1 := Next(s0, FireTimer(n));
    Use(s0, n, 0);
    StepKeeps(s0, FireTimer(n));
    QuietFuncs(s0);
    SelfReached(s0.tree, n);
    assert s0.next in s1.acts && AboutTo(s1.acts[s0.next], n);
    AtRest(s0, s1, steps, s2, n, w);
  }

  /** At rest, in every run: when the deadline of an uncancelled context passes, its timer
      can fire, and the tree can then come to rest again, with that context cancelled for
      that reason.  TimerEffect says so of every way of coming to rest. */
  lemma DeadlineCancels(states: seq<State>, steps: seq<Step>, i: nat, n: Id) returns (more: seq<Step>, s2: State)
    requires IsRun(states, steps) && i < |states| && states[i].acts == map[] && Sane(states[i])
    requires n < |states[i].nodes| && states[i].tree[n].kind.TimerCtx? && states[i].nodes[n].why.None?
    ensures Enabled(states[i], FireTimer(n))
    ensures Leads(Next(states[i], FireTimer(n)), more, s2) && s2.acts == map[] && Sane(s2) && n < |s2.nodes|
    ensures Err(s2, n) == Some(DeadlineExceeded)
    ensures var late := states[i].tree[n].late;
            Cause(s2, n) == Some(if late.Some? then late.value else DeadlineExceeded)
  {
    hide Inv, Init, Enabled, Next, Leads, Err, Cause;
    var s := states[i];
    QuietTimer(states, steps, i, n);
    InvHolds(states, steps, i);
    StepKeeps(s, FireTimer(n));
    more, s2 := ComesToRest(Next(s, FireTimer(n)));
    TimerEffect(s, n, more, s2);
    Use(s2, 0, 0);
    var late := s.tree[n].late;
    assert CancelledAt(s, s2, n, Reason(DeadlineExceeded, if late.Some? then late.value else DeadlineExceeded), n);
    SelfReached(s.tree, n);
    StoppedErr(s, n);
  }

  /** At rest, stop() on a context of AfterFunc whose function has not been started: it
      never will be, and the context is cancelled.  Otherwise stop does nothing. */
  lemma StopEffect(s0: State, n: Id, steps: seq<Step>, s2: State)
    requires Inv(s0) && s0.acts == map[] && Enabled(s0, UserStop(n))
    requires Leads(Next(s0, UserStop(n)), steps, s2) && s2.acts == map[]
    ensures s0.nodes[n].once.Fresh? ==>
              Sane(s2) && n < |s2.nodes| && s2.nodes[n].once.Stopped? && Err(s2, n) == Cause(s2, n) == Some(Canceled)
    ensures !s0.nodes[n].once.Fresh? ==> s2 == s0
  {
    hide Inv, Up, Anchor, CanCancel, CanNew, CancelStep, NewStep, Reaches;
    var s1 := Next(s0, UserStop(n));
    if s0.nodes[n].once.Fresh? {
      hide Leads, Err, Cause;
      StepKeeps(s0, UserStop(n));
      QuietFuncs(s0);
      QuietNode(s0, n);
      SelfReached(s0.tree, n);
      var base := Put(s0, n, s0.nodes[n].(once := Stopped));
      assert FuncsDone(base);
      assert s0.next in s1.acts && AboutTo(s1.acts[s0.next], n);
      assert Spreading(base, s1, n, Reason(Canceled, Canceled));
      AtRest(base, s1, steps, s2, n, Reason(Canceled, Canceled));
      StoppedErr(base, n);
      assert CancelledAt(base, s2, n, Reason(Canceled, Canceled), n);
    } else {
      NothingLeads(s0, steps, s2);
    }
  }

  lemma StoppedErr(s: State, n: Id)
    requires Sane(s) && n < |s.nodes| && IsCancel(s.tree[n].kind) && s.nodes[n].why.None?
    ensures Err(s, n).None?
  {
  }

  /** Without calls in progress nothing moves. */
  lemma NothingLeads(s: State, steps: seq<Step>, s2: State)
    requires s.acts == map[] && Leads(s, steps, s2)
    ensures s2 == s
  {
  }

  /** Every AfterFunc whose function was kept from running had its stop called. */
  ghost predicate StopsCalled(s: State, steps: seq<Step>) {
    forall n :: 0 <= n < |s.nodes| && s.nodes[n].once.Stopped? ==> UserStop(n) in steps
  }

  lemma CallsNeverStop(s: State, t: Step, n: Id)
    requires Enabled(s, t) && t.Advance? && n < |s.nodes|
    ensures |Next(s, t).nodes| == |s.nodes| && (Next(s, t).nodes[n].once.Stopped? ==> s.nodes[n].once.Stopped?)
  {
    hide CanCancel, CanNew, CancelStep, NewStep;
    if s.acts[t.a].Cancel? { CancelNeverStops(s, t.a, t.pick, n); } else { NewTouches(s, t.a, t.past, n); }
  }

  lemma CancelNeverStops(s: State, a: Act, pick: Id, n: Id)
    requires Sane(s) && IsCall(s, a) && CanCancel(s, a, pick) && n < |s.nodes|
    ensures |CancelStep(s, a, pick).nodes| == |s.nodes|
    ensures CancelStep(s, a, pick).nodes[n].once.Stopped? ==> s.nodes[n].once.Stopped?
  {
    hide Up, Anchor;
  }

  lemma StepStops(s: State, t: Step, n: Id)
    requires Enabled(s, t) && n < |Next(s, t).nodes| && Next(s, t).nodes[n].once.Stopped?
    ensures (n < |s.nodes| && s.nodes[n].once.Stopped?) || t == UserStop(n)
  {
    hide Up, Anchor, CanCancel, CanNew, CancelStep, NewStep;
    if t.Advance? {
      hide Next, Enabled;
      SameSize(s, t);
      CallsNeverStop(s, t, n);
    }
  }

  lemma NoneStopped()
    ensures forall steps: seq<Step> :: StopsCalled(Init(), steps)
  {
  }

  lemma {:induction false} StopsWereCalled(states: seq<State>, steps: seq<Step>, i: nat)
    requires IsRun(states, steps) && i < |states|
    ensures StopsCalled(states[i], steps[..i])
  {
    hide Enabled, Next, Init;
    if i == 0 {
      NoneStopped();
    } else {
      StopsWereCalled(states, steps, i - 1);
      assert Moves(states[i - 1], steps[i - 1], states[i]);
      OneLonger(steps, i);
      forall n | 0 <= n < |states[i].nodes| && states[i].nodes[n].once.Stopped? ensures UserStop(n) in steps[..i] {
        StepStops(states[i - 1], steps[i - 1], n);
      }
    }
  }

  // ----- whatever else is going on

  /** n is cancelled, or a call of cancel is about to lock it. */
  ghost predicate Doomed(s: State, n: Id) { n < |s.nodes| && (s.nodes[n].why.Some? || SomeAboutTo(s, n)) }

  /** A call of cancel or stop on n, its timer, or its constructor's finding that the
      deadline has passed. */
  predicate Dooms(s: State, t: Step, n: Id) {
    || (t.UserCancel? && t.n == n)
    || (t.UserStop? && t.n == n && n < |s.nodes| && s.nodes[n].once.Fresh?)
    || t == FireTimer(n)
    || (t.Advance? && t.past && t.a in s.acts && s.acts[t.a].New? && s.acts[t.a].npc.Deadline?
        && s.acts[t.a].n == n && n < |s.tree| && s.tree[n].kind.TimerCtx?)
  }

  lemma NowDoomed(s: State, t: Step, n: Id)
    requires Inv(s) && Enabled(s, t) && Dooms(s, t, n)
    ensures Doomed(Next(s, t), n)
  {
    hide Inv, Up, Anchor, CanCancel, CanNew, CancelStep, NodeOk, LinkOk;
    var s2 := Next(s, t);
    assert s.next in s2.acts && AboutTo(s2.acts[s.next], n);
  }

  lemma StillDoomed(s: State, t: Step, n: Id)
    requires Inv(s) && Enabled(s, t) && Doomed(s, n)
    ensures Doomed(Next(s, t), n)
  {
    hide Inv, Enabled, Next, CancelStep, NewStep, CanCancel, CanNew, SomeAboutTo;
    if s.nodes[n].why.Some? {
      StepStable(s, t, n);
    } else if !t.Advance? {
      UserKeeps(s, t, n);
      AboutKept(s, Next(s, t), n);
    } else {
      AdvanceIs(s, t);
      if s.acts[t.a].Cancel? { AboutStays(s, t.a, t.pick, n); } else {
        SameSize(s, t);
        AboutStaysNew(s, t.a, t.past, n);
      }
    }
  }

  lemma AboutKept(s: State, s2: State, n: Id)
    requires SomeAboutTo(s, n) && forall b :: b in s.acts ==> b in s2.acts && s2.acts[b] == s.acts[b]
    ensures SomeAboutTo(s2, n)
  {
    var b :| b in s.acts && AboutTo(s.acts[b], n);
    assert AboutTo(s2.acts[b], n);
  }

  lemma AdvanceIs(s: State, t: Step)
    requires Enabled(s, t) && t.Advance?
    ensures Sane(s) && t.a in s.acts && s.acts[t.a].n < |s.nodes|
    ensures s.acts[t.a].Cancel? ==> CanCancel(s, t.a, t.pick) && Next(s, t) == CancelStep(s, t.a, t.pick)
    ensures s.acts[t.a].New? ==> CanNew(s, t.a, t.past) && Next(s, t) == NewStep(s, t.a, t.past)
  {
    hide CanCancel, CanNew, CancelStep, NewStep;
  }

  lemma {:induction false} DoomedFrom(states: seq<State>, steps: seq<Step>, k: nat, i: nat, n: Id)
    requires IsRun(states, steps) && k < i < |states| && Dooms(states[k], steps[k], n)
    ensures Doomed(states[i], n)
  {
    hide Inv, Enabled, Next, Init, Doomed, Dooms;
    InvHolds(states, steps, i - 1);
    assert Moves(states[i - 1], steps[i - 1], states[i]);
    if k == i - 1 {
      NowDoomed(states[k], steps[k], n);
    } else {
      DoomedFrom(states, steps, k, i - 1, n);
      StillDoomed(states[i - 1], steps[i - 1], n);
    }
  }

  /** Cancelling takes effect, however many calls are in progress: at any later point of the
      run at which none is, the context is cancelled and its channel closed. */
  lemma CancelsAnyway(states: seq<State>, steps: seq<Step>, k: nat, i: nat, n: Id)
    requires IsRun(states, steps) && k < i < |states| && Dooms(states[k], steps[k], n)
    requires states[i].acts == map[] && Sane(states[i])
    ensures n < |states[i].nodes| && DoneClosed(states[i].nodes[n])
    ensures states[i].nodes[n].why.Some?
  {
    hide Inv, Enabled, Next, Init, Dooms;
    DoomedFrom(states, steps, k, i, n);
    InvHolds(states, steps, i);
    QuietNode(states[i], n);
  }
}
