/** The calls on a tree of contexts end: every step of a call in progress lowers a rank, so
    that without new calls the tree comes to rest. */
module ContextProgress {

  import opened Common
  import opened Context
  import opened ContextSteps
  import opened ContextRuns

  // ----- the rank

  /** Steps that a call may still take by itself, in a tree of n contexts.  A call of cancel
      that has yet to find out whether it is the first is weighed as if it were not. */
  function Weight(c: Call, n: nat): nat {
    match c
    case Cancel(_, _, _, _, pc, _) =>
      (match pc
       case Enter => 6
       case Close => 8 * n + 6
       case Loop(todo) => 8 * |todo| + 5
       case Child(todo, _, _) => 8 * |todo| + 6
       case Remove => 4
       case Unlink => 3
       case Finish => 2)
    case New(_, npc) =>
      (match npc
       case AskDone => 30
       case Select => 29
       case ReadCause => 28
       case Lookup => 28
       case Enlist => 27
       case Calling(_) => 19
       case CallingHeld(_) => 19
       case Release => 18
       case Deadline => 17
       case Expiring(_) => 3
       case Publish => 2
       case Fallback => 1)
  }

  /** The calls below k. */
  function Load(acts: map<Act, Call>, k: Act, n: nat): nat {
    if k == 0 then 0 else Load(acts, k - 1, n) + if k - 1 in acts then Weight(acts[k - 1], n) else 0
  }

  /** Each uncancelled context may be cancelled once, at this price. */
  function Open(nodes: seq<Node>, price: nat): nat {
    if nodes == [] then 0
    else Open(nodes[..|nodes| - 1], price) + if nodes[|nodes| - 1].why.None? then price else 0
  }

  function Price(n: nat): nat { 8 * n + 1 }

  function Rank(s: State): nat { Open(s.nodes, Price(|s.nodes|)) + Load(s.acts, s.next, |s.nodes|) }

  // ----- sums

  lemma {:induction false} LoadPut(acts: map<Act, Call>, k: Act, n: nat, a: Act, c: Call)
    requires a in acts
    ensures a < k ==> Load(acts[a := c], k, n) + Weight(acts[a], n) == Load(acts, k, n) + Weight(c, n)
    ensures a >= k ==> Load(acts[a := c], k, n) == Load(acts, k, n)
  {
    hide Weight;
    if k > 0 { LoadPut(acts, k - 1, n, a, c); }
  }

  lemma {:induction false} LoadAbove(acts: map<Act, Call>, k: Act, n: nat, a: Act, c: Call)
    requires a >= k
    ensures Load(acts[a := c], k, n) == Load(acts, k, n)
  {
    hide Weight;
    if k > 0 { LoadAbove(acts, k - 1, n, a, c); }
  }

  lemma {:induction false} LoadDrop(acts: map<Act, Call>, k: Act, n: nat, a: Act)
    requires a in acts
    ensures a < k ==> Load(acts - {a}, k, n) + Weight(acts[a], n) == Load(acts, k, n)
    ensures a >= k ==> Load(acts - {a}, k, n) == Load(acts, k, n)
  {
    hide Weight;
    if k > 0 { LoadDrop(acts, k - 1, n, a); }
  }

  lemma {:induction false} OpenPut(nodes: seq<Node>, price: nat, i: nat, x: Node)
    requires i < |nodes|
    ensures nodes[i].why.None? == x.why.None? ==> Open(nodes[i := x], price) == Open(nodes, price)
    ensures nodes[i].why.None? && x.why.Some? ==> Open(nodes[i := x], price) + price == Open(nodes, price)
  {
    var last := |nodes| - 1;
    if i < last {
      OpenPut(nodes[..last], price, i, x);
      assert nodes[i := x][..last] == nodes[..last][i := x];
    } else {
      assert nodes[i := x][..last] == nodes[..last];
    }
  }

  // ----- what each change does to the rank

  ghost predicate KeysOk(s: State) { forall a :: a in s.acts ==> a < s.next }

  lemma KeysAre(s: State)
    requires Inv(s)
    ensures KeysOk(s)
  {
    hide Inv;
    forall a | a in s.acts ensures a < s.next { Use(s, 0, a); }
  }

  lemma RankMove(s: State, a: Act, c: Call)
    requires a in s.acts && a < s.next
    ensures Rank(Move(s, a, c)) + Weight(s.acts[a], |s.nodes|) == Rank(s) + Weight(c, |s.nodes|)
  {
    hide Weight, Load, Open;
    LoadPut(s.acts, s.next, |s.nodes|, a, c);
  }

  lemma RankSpawn(s: State, c: Call)
    ensures Rank(Spawn(s, c)) == Rank(s) + Weight(c, |s.nodes|)
  {
    hide Weight, Open;
    LoadAbove(s.acts, s.next, |s.nodes|, s.next, c);
  }

  lemma RankPut(s: State, i: Id, x: Node)
    requires i < |s.nodes| && s.nodes[i].why.None? == x.why.None?
    ensures Rank(Put(s, i, x)) == Rank(s)
  {
    hide Weight, Load, Open;
    OpenPut(s.nodes, Price(|s.nodes|), i, x);
  }

  lemma RankCancelled(s: State, i: Id, x: Node)
    requires i < |s.nodes| && s.nodes[i].why.None? && x.why.Some?
    ensures Rank(Put(s, i, x)) + Price(|s.nodes|) == Rank(s)
  {
    hide Weight, Load, Open;
    OpenPut(s.nodes, Price(|s.nodes|), i, x);
  }

  lemma ResumeIsLight(c: Call, n: nat)
    ensures Weight(Resume(c), n) <= Weight(c, n)
  {
  }

  lemma RankReturn(s: State, a: Act)
    requires a in s.acts && KeysOk(s)
    ensures Rank(Return(s, a)) + Weight(s.acts[a], |s.nodes|) <= Rank(s)
  {
    hide Weight, Load, Open, Resume;
    var c, rest := s.acts[a], s.acts - {a};
    LoadDrop(s.acts, s.next, |s.nodes|, a);
    if c.Cancel? && c.ret.Some? && c.ret.value in rest {
      LoadPut(rest, s.next, |s.nodes|, c.ret.value, Resume(rest[c.ret.value]));
      ResumeIsLight(rest[c.ret.value], |s.nodes|);
    }
  }

  // ----- every step of a call

  /** There are no more children than contexts. */
  lemma ChildrenAreFew(s: State, p: Id)
    requires Inv(s) && p < |s.nodes|
    ensures |s.nodes[p].children| <= |s.nodes|
  {
    hide Inv, Up, Anchor;
    forall m | m in s.nodes[p].children ensures m < |s.nodes| { UseChild(s, p, m); }
    Below(s.nodes[p].children, |s.nodes|);
  }

  lemma {:induction false} Below(ids: set<Id>, n: nat)
    requires forall m :: m in ids ==> m < n
    ensures |ids| <= n
    decreases n
  {
    if n == 0 {
      assert ids == {};
    } else {
      Below(ids - {n - 1}, n - 1);
      if n - 1 in ids { assert |ids| == |ids - {n - 1}| + 1; }
      else { assert ids - {n - 1} == ids; }
    }
  }

  lemma WinLowers(s: State, a: Act)
    requires IsCall(s, a) && a < s.next && s.acts[a].pc.Enter? && s.nodes[s.acts[a].n].why.None?
    ensures Rank(WinStep(s, a)) < Rank(s)
  {
    hide Rank;
    var c := s.acts[a];
    var x := s.nodes[c.n].(lock := Some(a), why := Some(c.why), first := Some(a), direct := c.direct);
    RankCancelled(s, c.n, x);
    RankMove(Put(s, c.n, x), a, c.(pc := Close));
  }

  lemma CloseLowers(s: State, a: Act)
    requires IsCall(s, a) && a < s.next && s.acts[a].pc.Close? && |s.nodes[s.acts[a].n].children| <= |s.nodes|
    ensures Rank(CloseStep(s, a)) < Rank(s)
  {
    hide Rank;
    var c := s.acts[a];
    var x := s.nodes[c.n];
    var x2 := x.(done := if x.done.Unset? then SharedClosed else Made(true));
    RankPut(s, c.n, x2);
    RankMove(Put(s, c.n, x2), a, c.(pc := Loop(x.children)));
  }

  lemma ChildLowers(s: State, a: Act, pick: Id)
    requires IsCall(s, a) && a < s.next && s.acts[a].pc.Loop? && pick in s.acts[a].pc.todo
    ensures Rank(ChildStep(s, a, pick)) < Rank(s)
  {
    hide Rank;
    var c := s.acts[a];
    var moved := Move(s, a, c.(pc := Child(c.pc.todo - {pick}, pick, s.next)));
    RankMove(s, a, c.(pc := Child(c.pc.todo - {pick}, pick, s.next)));
    RankSpawn(moved, Cancel(pick, false, c.why, false, Enter, Some(a)));
    assert |c.pc.todo - {pick}| == |c.pc.todo| - 1;
  }

  lemma DoneLowers(s: State, a: Act)
    requires IsCall(s, a) && a < s.next && s.acts[a].pc.Loop?
    ensures Rank(DoneStep(s, a)) < Rank(s)
  {
    hide Rank;
    var c := s.acts[a];
    var x := s.nodes[c.n].(children := {}, lock := None);
    RankPut(s, c.n, x);
    RankMove(Put(s, c.n, x), a, c.(pc := Remove));
  }

  lemma LeaveLowers(s: State, a: Act)
    requires Sane(s) && IsCall(s, a) && KeysOk(s) && CanCancel(s, a, 0)
    requires s.acts[a].pc.Remove? || s.acts[a].pc.Unlink? || s.acts[a].pc.Finish?
    ensures Rank(CancelStep(s, a, 0)) < Rank(s)
  {
    hide Rank, Up, Anchor, Return;
    var c := s.acts[a];
    var up := Up(s.tree, c.n);
    if c.pc.Remove? {
      if Skips(s, c.rm, up) {
        RankMove(s, a, c.(pc := Finish));
      } else {
        RankPut(s, up.value, WithDone(s.nodes[up.value]));
        RankMove(Put(s, up.value, WithDone(s.nodes[up.value])), a, c.(pc := Unlink));
      }
    } else if c.pc.Unlink? {
      var x := s.nodes[up.value].(children := s.nodes[up.value].children - {c.n});
      RankPut(s, up.value, x);
      RankMove(Put(s, up.value, x), a, c.(pc := Finish));
    } else {
      var x := Settled(s.tree[c.n].kind, s.nodes[c.n]);
      RankPut(s, c.n, x);
      RankReturn(Put(s, c.n, x), a);
    }
  }

  lemma CancelLowers(s: State, a: Act, pick: Id)
    requires Inv(s) && Sane(s) && IsCall(s, a) && CanCancel(s, a, pick)
    ensures Rank(CancelStep(s, a, pick)) < Rank(s)
  {
    hide Rank, Up, Anchor, Inv, Return, WinStep, CloseStep, ChildStep, DoneStep, Settled, WithDone, Skips;
    KeysAre(s);
    var c := s.acts[a];
    match c.pc
    case Enter =>
      if s.nodes[c.n].why.None? { WinLowers(s, a); }
      else if s.tree[c.n].kind.CancelCtx? { RankReturn(s, a); }
      else { RankMove(s, a, c.(pc := Remove)); }
    case Close =>
      ChildrenAreFew(s, c.n);
      CloseLowers(s, a);
    case Loop(todo) => if todo == {} { DoneLowers(s, a); } else { ChildLowers(s, a, pick); }
    case Child(_, _, _) => assert false;
    case _ => LeaveLowers(s, a);
  }

  lemma CallLowers(s: State, a: Act, why: Reason)
    requires IsNew(s, a) && a < s.next && s.acts[a].npc.ReadCause?
    ensures Rank(CallStep(s, a, why)) < Rank(s)
  {
    hide Rank;
    var c := s.acts[a];
    RankMove(s, a, c.(npc := Calling(s.next)));
    RankSpawn(Move(s, a, c.(npc := Calling(s.next))), Cancel(c.n, false, why, false, Enter, Some(a)));
  }

  lemma CallHeldLowers(s: State, a: Act, p: Id)
    requires IsNew(s, a) && a < s.next && s.acts[a].npc.Enlist? && p < |s.nodes| && s.nodes[p].why.Some?
    ensures Rank(CallHeldStep(s, a, p)) < Rank(s)
  {
    hide Rank;
    var c := s.acts[a];
    var s1 := Put(s, p, s.nodes[p].(lock := Some(a)));
    RankPut(s, p, s.nodes[p].(lock := Some(a)));
    RankMove(s1, a, c.(npc := CallingHeld(s.next)));
    RankSpawn(Move(s1, a, c.(npc := CallingHeld(s.next))),
              Cancel(c.n, false, s.nodes[p].why.value, false, Enter, Some(a)));
  }

  lemma ExpireLowers(s: State, a: Act)
    requires Sane(s) && IsNew(s, a) && a < s.next && s.acts[a].npc.Deadline?
    ensures Rank(ExpireStep(s, a)) < Rank(s)
  {
    hide Rank;
    var c := s.acts[a];
    var s1 := Put(s, c.n, s.nodes[c.n].(timer := Passed));
    RankPut(s, c.n, s.nodes[c.n].(timer := Passed));
    RankMove(s1, a, c.(npc := Expiring(s.next)));
    RankSpawn(Move(s1, a, c.(npc := Expiring(s.next))),
              Cancel(c.n, true, Why(DeadlineExceeded, s.tree[c.n].late), true, Enter, Some(a)));
  }

  lemma PublishLowers(s: State, a: Act)
    requires IsNew(s, a) && a < s.next
    ensures Rank(PublishStep(s, a)) < Rank(s)
  {
    hide Rank, Load, Open;
    var n := s.acts[a].n;
    RankPut(s, n, s.nodes[n].(reg := None));
    PositiveWeight(s.acts[a], |s.nodes|);
    RankRemoved(Put(s, n, s.nodes[n].(reg := None)), a);
  }

  lemma PositiveWeight(c: Call, n: nat)
    ensures Weight(c, n) > 0
  {
  }

  lemma RankRemoved(s: State, a: Act)
    requires a in s.acts && a < s.next
    ensures Rank(s.(acts := s.acts - {a})) + Weight(s.acts[a], |s.nodes|) == Rank(s)
  {
    hide Weight, Load, Open;
    LoadDrop(s.acts, s.next, |s.nodes|, a);
  }

  /** The steps of a constructor that only look at the parent, or enter its children. */
  lemma LookLowers(s: State, a: Act, p: Id, x: Node, pc: NewPc)
    requires IsNew(s, a) && a < s.next && p < |s.nodes| && s.nodes[p].why.None? == x.why.None?
    requires Weight(s.acts[a].(npc := pc), |s.nodes|) < Weight(s.acts[a], |s.nodes|)
    ensures Rank(Move(Put(s, p, x), a, s.acts[a].(npc := pc))) < Rank(s)
  {
    hide Rank, Weight;
    RankPut(s, p, x);
    RankMove(Put(s, p, x), a, s.acts[a].(npc := pc));
  }

  lemma ForwardLowers(s: State, a: Act, pc: NewPc)
    requires IsNew(s, a) && a < s.next
    requires Weight(s.acts[a].(npc := pc), |s.nodes|) < Weight(s.acts[a], |s.nodes|)
    ensures Rank(Forward(s, a, pc)) < Rank(s)
  {
    hide Rank, Weight;
    RankMove(s, a, s.acts[a].(npc := pc));
  }

  lemma NewLowers(s: State, a: Act, past: bool)
    requires Inv(s) && Sane(s) && IsNew(s, a) && CanNew(s, a, past)
    ensures Rank(NewStep(s, a, past)) < Rank(s)
  {
    hide Rank, Up, Anchor, Inv, WithDone, CallStep, CallHeldStep, ExpireStep, PublishStep;
    KeysAre(s);
    var c := s.acts[a];
    var up := Up(s.tree, c.n);
    Use(s, c.n, a);
    if up.Some? { Use(s, up.value, a); }
    match c.npc
    case AskDone =>
      if up.None? { ForwardLowers(s, a, Deadline); }
      else { DoneKeepsWhy(s.nodes[up.value]); LookLowers(s, a, up.value, WithDone(s.nodes[up.value]), Select); }
    case Select => ForwardLowers(s, a, if DoneClosed(s.nodes[up.value]) then ReadCause else Lookup);
    case ReadCause => CallLowers(s, a, s.nodes[up.value].why.value);
    case Lookup => ForwardLowers(s, a, Enlist);
    case Enlist =>
      if s.nodes[up.value].why.Some? { CallHeldLowers(s, a, up.value); }
      else { LookLowers(s, a, up.value, s.nodes[up.value].(children := s.nodes[up.value].children + {c.n}), Deadline); }
    case Release => LookLowers(s, a, up.value, s.nodes[up.value].(lock := None), Deadline);
    case Deadline =>
      if !s.tree[c.n].kind.TimerCtx? { PublishLowers(s, a); }
      else if past { ExpireLowers(s, a); }
      else if s.nodes[c.n].why.None? {
        RankPut(s, c.n, s.nodes[c.n].(timer := Armed));
        PublishLowers(Put(s, c.n, s.nodes[c.n].(timer := Armed)), a);
      } else { PublishLowers(s, a); }
    case Publish => PublishLowers(s, a);
    case _ => assert false;
  }

  lemma DoneKeepsWhy(x: Node)
    ensures WithDone(x).why == x.why
  {
  }

  /** Every step of a call in progress lowers the rank. */
  lemma AdvanceLowers(s: State, t: Step)
    requires Inv(s) && Enabled(s, t) && t.Advance?
    ensures Rank(Next(s, t)) < Rank(s)
  {
    hide Rank, Inv, CancelStep, NewStep, CanCancel, CanNew;
    if s.acts[t.a].Cancel? { CancelLowers(s, t.a, t.pick); } else { NewLowers(s, t.a, t.past); }
  }

  // ----- coming to rest

  /** As long as no call is begun, a run is no longer than the rank of its first state. */
  lemma {:induction false} CallsEnd(states: seq<State>, steps: seq<Step>, i: nat, j: nat)
    requires IsRun(states, steps) && i <= j < |states| && forall k :: i <= k < j ==> steps[k].Advance?
    ensures j - i + Rank(states[j]) <= Rank(states[i])
    decreases j
  {
    hide Inv, Enabled, Next, Init, Rank;
    if i < j {
      CallsEnd(states, steps, i, j - 1);
      InvHolds(states, steps, j - 1);
      assert Moves(states[j - 1], steps[j - 1], states[j]);
      AdvanceLowers(states[j - 1], steps[j - 1]);
    }
  }

  /** s2 is reached from s by steps of the calls in progress. */
  ghost predicate Leads(s: State, steps: seq<Step>, s2: State)
    decreases |steps|
  {
    if steps == [] then s2 == s
    else Enabled(s, steps[0]) && steps[0].Advance? && Leads(Next(s, steps[0]), steps[1..], s2)
  }

  /** From every state the calls in progress can all return.  They do in whatever order
      they move: some call can move while there is any (NoDeadlock), and CallsEnd bounds
      how often. */
  lemma {:induction false} ComesToRest(s: State) returns (steps: seq<Step>, s2: State)
    requires Inv(s)
    ensures Leads(s, steps, s2) && Inv(s2) && s2.acts == map[] && |steps| <= Rank(s)
    decreases Rank(s)
  {
    hide Inv, Enabled, Next, Rank;
    if s.acts == map[] {
      steps, s2 := [], s;
    } else {
      var t := NoDeadlock(s);
      AdvanceLowers(s, t);
      StepKeeps(s, t);
      var more;
      more, s2 := ComesToRest(Next(s, t));
      steps := [t] + more;
      assert steps[1..] == more;
    }
  }
}
