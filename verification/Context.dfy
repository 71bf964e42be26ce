/** context/context.go: the cancellation tree as a state machine.  Every lock
    section, atomic operation and channel operation is one step, and any number of
    calls are in progress at once. */
module Context {

  import opened Common

  type Id = nat      // a context
  type Act = nat     // a call in progress

  datatype Error = Canceled | DeadlineExceeded | User(code: int)

  /** Fields `err` and `cause`, which are always written together under c.mu. */
  datatype Reason = Reason(err: Error, cause: Error)

  /** Plain stands for valueCtx, which delegates everything to its parent. */
  datatype Kind = Background | Plain | Without | CancelCtx | TimerCtx | AfterFuncCtx

  /** What a context is born with: nothing here changes. */
  datatype Link = Link(kind: Kind, parent: Id, late: Option<Error>)

  /** The lazily created done channel, or the shared closed one. */
  datatype Done = Unset | Made(closed: bool) | SharedClosed

  /** Passed: the deadline was over before the timer was made. */
  datatype Timer = NoTimer | Armed | Fired | Passed

  datatype Once = Fresh | Stopped | Started

  datatype Node = Node(
    done: Done, children: set<Id>, why: Option<Reason>, lock: Option<Act>,
    timer: Timer, once: Once,
    reg: Option<Act>,      // the constructor call, until it returns
    first: Option<Act>,    // the call that set err
    direct: bool           // that call named this context, not an ancestor
  )

  /** Where a call of cancel is. */
  datatype CancelPc =
    | Enter                                   // about to lock c.mu
    | Close                                   // err and cause stored, done still open
    | Loop(todo: set<Id>)                     // cancelling the children
    | Child(todo: set<Id>, m: Id, callee: Act)
    | Remove                                  // unlocked; removeChild asks for parent.Done()
    | Unlink                                  // about to lock p.mu
    | Finish                                  // the wrapper's own last lines

  /** Where a call of a constructor is. */
  datatype NewPc =
    | AskDone                                 // done := parent.Done()
    | Select                                  // is it closed already?
    | ReadCause                               // parent.Err() and Cause(parent)
    | Lookup                                  // parentCancelCtx(parent)
    | Enlist                                  // about to lock p.mu
    | Calling(callee: Act)                    // child.cancel, no lock held
    | CallingHeld(callee: Act)                // child.cancel, p.mu held
    | Release                                 // unlock p.mu
    | Deadline                                // propagateCancel returned
    | Expiring(callee: Act)                   // the deadline had passed already
    | Publish
    | Fallback                                // the afterFuncer and goroutine branches

  datatype Call =
    | Cancel(n: Id, rm: bool, why: Reason, direct: bool, pc: CancelPc, ret: Option<Act>)
    | New(n: Id, npc: NewPc)

  datatype State = State(tree: seq<Link>, nodes: seq<Node>, acts: map<Act, Call>, next: Act)

  // ----- the tree

  predicate IsCancel(k: Kind) { k.CancelCtx? || k.TimerCtx? || k.AfterFuncCtx? }

  /** `value(c, &cancelCtxKey)`: the innermost cancelCtx, not looking past WithoutCancel. */
  function Anchor(tree: seq<Link>, c: Id): (r: Option<Id>)
    requires c < |tree|
    ensures r.Some? ==> r.value <= c && IsCancel(tree[r.value].kind)
    decreases c
  {
    var k := tree[c].kind;
    if IsCancel(k) then Some(c)
    else if k.Plain? && tree[c].parent < c then Anchor(tree, tree[c].parent)
    else None
  }

  /** The cancelCtx whose cancellation reaches c from above. */
  function Up(tree: seq<Link>, c: Id): (r: Option<Id>)
    requires c < |tree|
    ensures r.Some? ==> r.value < c && IsCancel(tree[r.value].kind)
  {
    if tree[c].kind.Background? || tree[c].parent >= c then None else Anchor(tree, tree[c].parent)
  }

  predicate DoneClosed(x: Node) { x.done == Made(true) || x.done.SharedClosed? }

  predicate Sane(s: State) { |s.tree| == |s.nodes| }

  // ----- steps

  function Grow(s: State, l: Link, reg: Option<Act>): State {
    s.(tree := s.tree + [l], nodes := s.nodes + [Blank(reg)])
  }

  function Put(s: State, n: Id, x: Node): State
    requires n < |s.nodes|
  {
    s.(nodes := s.nodes[n := x])
  }

  function Move(s: State, a: Act, c: Call): State {
    s.(acts := s.acts[a := c])
  }

  function Spawn(s: State, c: Call): State {
    s.(acts := s.acts[s.next := c], next := s.next + 1)
  }

  /** The caller goes on when its callee has returned. */
  function Resume(c: Call): Call {
    if c.Cancel? then
      if c.pc.Child? then c.(pc := Loop(c.pc.todo)) else c
    else if c.npc.Calling? then c.(npc := Deadline)
    else if c.npc.CallingHeld? then c.(npc := Release)
    else if c.npc.Expiring? then c.(npc := Publish)
    else c
  }

  function Return(s: State, a: Act): State
    requires a in s.acts
  {
    var c := s.acts[a];
    var rest := s.acts - {a};
    if c.Cancel? && c.ret.Some? && c.ret.value in rest then
      s.(acts := rest[c.ret.value := Resume(rest[c.ret.value])])
    else s.(acts := rest)
  }

  datatype Step =
    | Derive(kind: Kind, parent: Id)                              // Background, WithValue, WithoutCancel
    | Construct(kind: Kind, parent: Id, late: Option<Error>)      // WithCancel, WithDeadlineCause, AfterFunc
    | Touch(n: Id)                                                // ctx.Done()
    | UserCancel(n: Id, cause: Option<Error>)
    | UserStop(n: Id)                                             // the stop function of AfterFunc
    | FireTimer(n: Id)
    | Advance(a: Act, pick: Id, past: bool)                       // a call in progress moves on

  /** The user holds the context once its constructor has returned. */
  predicate Ready(s: State, n: Id) { n < |s.nodes| && s.nodes[n].reg.None? }

  predicate Free(s: State, n: Id) { n < |s.nodes| && s.nodes[n].lock.None? }

  /** Done() takes the lock only to create the channel. */
  predicate DoneReady(s: State, n: Id) { n < |s.nodes| && (!s.nodes[n].done.Unset? || s.nodes[n].lock.None?) }

  function WithDone(x: Node): Node { if x.done.Unset? then x.(done := Made(false)) else x }

  function Blank(reg: Option<Act>): Node { Node(Unset, {}, None, None, NoTimer, Fresh, reg, None, false) }

  /** `if cause == nil { cause = err }` */
  function Why(err: Error, cause: Option<Error>): Reason { Reason(err, if cause.Some? then cause.value else err) }

  predicate Enabled(s: State, t: Step) {
    && Sane(s)
    && match t
       case Derive(k, p) => k.Background? || ((k.Plain? || k.Without?) && Ready(s, p))
       case Construct(k, p, _) => IsCancel(k) && Ready(s, p)
       case Touch(n) => Ready(s, n) && (var a := Anchor(s.tree, n); a.Some? ==> DoneReady(s, a.value))
       case UserCancel(n, _) => Ready(s, n) && (s.tree[n].kind.CancelCtx? || s.tree[n].kind.TimerCtx?)
       case UserStop(n) => Ready(s, n) && s.tree[n].kind.AfterFuncCtx?
       case FireTimer(n) => n < |s.nodes| && s.nodes[n].timer.Armed?
       case Advance(a, pick, past) =>
         a in s.acts && s.acts[a].n < |s.nodes| &&
         if s.acts[a].Cancel? then CanCancel(s, a, pick) else CanNew(s, a, past)
  }

  /** removeChild has nothing to do: it was not asked for, there is no cancellable
      parent, or the parent's channel is the shared closed one. */
  predicate Skips(s: State, rm: bool, up: Option<Id>) {
    !rm || up.None? || up.value >= |s.nodes| || s.nodes[up.value].done.SharedClosed?
  }

  predicate CanCancel(s: State, a: Act, pick: Id)
    requires Sane(s) && a in s.acts && s.acts[a].Cancel? && s.acts[a].n < |s.nodes|
  {
    var c := s.acts[a];
    var up := Up(s.tree, c.n);
    match c.pc
    case Enter => Free(s, c.n)
    case Close => true
    case Loop(todo) => todo == {} || pick in todo
    case Child(_, _, _) => false
    case Remove => Skips(s, c.rm, up) || DoneReady(s, up.value)
    case Unlink => up.Some? && Free(s, up.value)
    case Finish => !s.tree[c.n].kind.TimerCtx? || Free(s, c.n)
  }

  predicate CanNew(s: State, a: Act, past: bool)
    requires Sane(s) && a in s.acts && s.acts[a].New? && s.acts[a].n < |s.nodes|
  {
    var c := s.acts[a];
    var up := Up(s.tree, c.n);
    match c.npc
    case AskDone => up.None? || DoneReady(s, up.value)
    case Select => up.Some?
    case ReadCause => up.Some? && Free(s, up.value)
    case Lookup => up.Some?
    case Enlist => up.Some? && Free(s, up.value)
    case Release => up.Some?
    case Deadline => !s.tree[c.n].kind.TimerCtx? || past || Free(s, c.n)
    case Publish => true
    case _ => false
  }

  function Next(s: State, t: Step): State
    requires Enabled(s, t)
  {
    match t
    case Derive(k, p) => Grow(s, Link(k, p, None), None)
    case Construct(k, p, late) =>
      Spawn(Grow(s, Link(k, p, late), Some(s.next)), New(|s.nodes|, AskDone))
    case Touch(n) =>
      var a := Anchor(s.tree, n);
      if a.None? then s else Put(s, a.value, WithDone(s.nodes[a.value]))
    case UserCancel(n, u) => Spawn(s, Cancel(n, !s.nodes[n].timer.Passed?, Why(Canceled, u), true, Enter, None))
    case UserStop(n) =>
      if s.nodes[n].once.Fresh? then
        Spawn(Put(s, n, s.nodes[n].(once := Stopped)), Cancel(n, true, Why(Canceled, None), true, Enter, None))
      else s
    case FireTimer(n) =>
      Spawn(Put(s, n, s.nodes[n].(timer := Fired)),
            Cancel(n, true, Why(DeadlineExceeded, s.tree[n].late), true, Enter, None))
    case Advance(a, pick, past) => if s.acts[a].Cancel? then CancelStep(s, a, pick) else NewStep(s, a, past)
  }

  predicate IsCall(s: State, a: Act) { a in s.acts && s.acts[a].Cancel? && s.acts[a].n < |s.nodes| }

  predicate IsNew(s: State, a: Act) { a in s.acts && s.acts[a].New? && s.acts[a].n < |s.nodes| }

  function CancelStep(s: State, a: Act, pick: Id): State
    requires Sane(s) && IsCall(s, a) && CanCancel(s, a, pick)
  {
    var c := s.acts[a];
    var x := s.nodes[c.n];
    var up := Up(s.tree, c.n);
    match c.pc
    case Enter =>
      if x.why.None? then WinStep(s, a)
      // already canceled: a plain cancelCtx returns at once, the wrappers go on
      else if s.tree[c.n].kind.CancelCtx? then Return(s, a)
      else Slide(s, a, Remove)
    case Close => CloseStep(s, a)
    case Loop(todo) => if todo == {} then DoneStep(s, a) else ChildStep(s, a, pick)
    case Remove =>
      if Skips(s, c.rm, up) then Slide(s, a, Finish)
      else Slide(Put(s, up.value, WithDone(s.nodes[up.value])), a, Unlink)
    case Unlink => UnlinkStep(s, a, up.value)
    case Finish => Return(Put(s, c.n, Settled(s.tree[c.n].kind, x)), a)
    case Child(_, _, _) => s
  }

  /** The first call stores err and cause, and keeps c.mu. */
  function WinStep(s: State, a: Act): State
    requires IsCall(s, a)
  {
    var c := s.acts[a];
    Move(Put(s, c.n, s.nodes[c.n].(lock := Some(a), why := Some(c.why), first := Some(a), direct := c.direct)),
         a, c.(pc := Close))
  }

  function CloseStep(s: State, a: Act): State
    requires IsCall(s, a)
  {
    var c := s.acts[a];
    var x := s.nodes[c.n];
    Move(Put(s, c.n, x.(done := if x.done.Unset? then SharedClosed else Made(true))), a, c.(pc := Loop(x.children)))
  }

  function ChildStep(s: State, a: Act, pick: Id): State
    requires IsCall(s, a) && s.acts[a].pc.Loop?
  {
    var c := s.acts[a];
    Spawn(Move(s, a, c.(pc := Child(c.pc.todo - {pick}, pick, s.next))),
          Cancel(pick, false, c.why, false, Enter, Some(a)))
  }

  function DoneStep(s: State, a: Act): State
    requires IsCall(s, a)
  {
    var c := s.acts[a];
    Move(Put(s, c.n, s.nodes[c.n].(children := {}, lock := None)), a, c.(pc := Remove))
  }

  function Slide(s: State, a: Act, pc: CancelPc): State
    requires IsCall(s, a)
  {
    Move(s, a, s.acts[a].(pc := pc))
  }

  function UnlinkStep(s: State, a: Act, p: Id): State
    requires IsCall(s, a) && p < |s.nodes|
  {
    var c := s.acts[a];
    Move(Put(s, p, s.nodes[p].(children := s.nodes[p].children - {c.n})), a, c.(pc := Finish))
  }

  /** timerCtx.cancel stops its timer; afterFuncCtx.cancel starts f unless it was stopped. */
  function Settled(k: Kind, x: Node): Node {
    if k.TimerCtx? && !x.timer.Passed? then x.(timer := NoTimer)
    else if k.AfterFuncCtx? && x.once.Fresh? then x.(once := Started)
    else x
  }

  function NewStep(s: State, a: Act, past: bool): State
    requires Sane(s) && IsNew(s, a) && CanNew(s, a, past)
  {
    var c := s.acts[a];
    var x := s.nodes[c.n];
    var up := Up(s.tree, c.n);
    match c.npc
    case AskDone =>
      if up.None? then Forward(s, a, Deadline)
      else Forward(Put(s, up.value, WithDone(s.nodes[up.value])), a, Select)
    case Select => Forward(s, a, if DoneClosed(s.nodes[up.value]) then ReadCause else Lookup)
    case ReadCause => if s.nodes[up.value].why.Some? then CallStep(s, a, s.nodes[up.value].why.value) else s
    case Lookup => Forward(s, a, if s.nodes[up.value].done.Made? then Enlist else Fallback)
    case Enlist =>
      if s.nodes[up.value].why.Some? then CallHeldStep(s, a, up.value) else EnlistStep(s, a, up.value)
    case Release => ReleaseStep(s, a, up.value)
    case Deadline =>
      if !s.tree[c.n].kind.TimerCtx? then PublishStep(s, a)
      else if past then ExpireStep(s, a)
      else PublishStep(if x.why.None? then Put(s, c.n, x.(timer := Armed)) else s, a)
    case Publish => PublishStep(s, a)
    case _ => s
  }

  function Forward(s: State, a: Act, pc: NewPc): State
    requires IsNew(s, a)
  {
    Move(s, a, s.acts[a].(npc := pc))
  }

  /** child.cancel(false, err, cause) with the parent's reason. */
  function CallStep(s: State, a: Act, why: Reason): State
    requires IsNew(s, a)
  {
    var c := s.acts[a];
    Spawn(Move(s, a, c.(npc := Calling(s.next))), Cancel(c.n, false, why, false, Enter, Some(a)))
  }

  /** The same with p.mu held. */
  function CallHeldStep(s: State, a: Act, p: Id): State
    requires IsNew(s, a) && p < |s.nodes| && s.nodes[p].why.Some?
  {
    var c := s.acts[a];
    Spawn(Move(Put(s, p, s.nodes[p].(lock := Some(a))), a, c.(npc := CallingHeld(s.next))),
          Cancel(c.n, false, s.nodes[p].why.value, false, Enter, Some(a)))
  }

  function EnlistStep(s: State, a: Act, p: Id): State
    requires IsNew(s, a) && p < |s.nodes|
  {
    var c := s.acts[a];
    Move(Put(s, p, s.nodes[p].(children := s.nodes[p].children + {c.n})), a, c.(npc := Deadline))
  }

  function ReleaseStep(s: State, a: Act, p: Id): State
    requires IsNew(s, a) && p < |s.nodes|
  {
    Move(Put(s, p, s.nodes[p].(lock := None)), a, s.acts[a].(npc := Deadline))
  }

  function ExpireStep(s: State, a: Act): State
    requires Sane(s) && IsNew(s, a)
  {
    var c := s.acts[a];
    Spawn(Move(Put(s, c.n, s.nodes[c.n].(timer := Passed)), a, c.(npc := Expiring(s.next))),
          Cancel(c.n, true, Why(DeadlineExceeded, s.tree[c.n].late), true, Enter, Some(a)))
  }

  function PublishStep(s: State, a: Act): State
    requires IsNew(s, a)
  {
    Put(s, s.acts[a].n, s.nodes[s.acts[a].n].(reg := None)).(acts := s.acts - {a})
  }

  // ----- the invariant

  ghost predicate Holds(s: State, a: Act, n: Id)
    requires Sane(s)
  {
    && a in s.acts && s.acts[a].n < |s.nodes|
    && if s.acts[a].Cancel? then s.acts[a].n == n && Active(s.acts[a].pc)
       else Up(s.tree, s.acts[a].n) == Some(n) && (s.acts[a].npc.CallingHeld? || s.acts[a].npc.Release?)
  }

  /** The lines of cancel that hold c.mu after err is stored. */
  predicate Active(pc: CancelPc) { pc.Close? || pc.Loop? || pc.Child? }

  ghost predicate Registrar(s: State, n: Id)
    requires n < |s.nodes|
  {
    var r := s.nodes[n].reg;
    r.Some? && r.value in s.acts && s.acts[r.value].New? && s.acts[r.value].n == n
  }

  /** The constructor has not reached a decision about the parent yet. */
  ghost predicate Early(s: State, n: Id)
    requires n < |s.nodes|
  {
    Registrar(s, n) && EarlyPc(s.acts[s.nodes[n].reg.value].npc)
  }

  predicate EarlyPc(pc: NewPc) { pc.AskDone? || pc.Select? || pc.ReadCause? || pc.Lookup? || pc.Enlist? }

  /** ... or is cancelling the newborn itself. */
  ghost predicate Registering(s: State, n: Id)
    requires n < |s.nodes|
  {
    Registrar(s, n) && RegisteringPc(s.acts[s.nodes[n].reg.value].npc)
  }

  predicate RegisteringPc(pc: NewPc) { EarlyPc(pc) || pc.Calling? || pc.CallingHeld? }

  /** The call that set err has not returned. */
  ghost predicate FirstBusy(s: State, n: Id)
    requires n < |s.nodes|
  {
    var f := s.nodes[n].first;
    f.Some? && f.value in s.acts && s.acts[f.value].Cancel? && s.acts[f.value].n == n && !s.acts[f.value].pc.Enter?
  }

  ghost predicate FromAbove(s: State, n: Id)
    requires Sane(s) && n < |s.nodes|
  {
    var up := Up(s.tree, n);
    up.Some? && s.nodes[up.value].why == s.nodes[n].why
  }

  ghost predicate NodeOk(s: State, n: Id)
    requires Sane(s) && n < |s.nodes|
  {
    var x := s.nodes[n];
    && (!IsCancel(s.tree[n].kind) ==> x == Blank(None))
    && (x.why.Some? <==> x.first.Some?)
    && (x.first.Some? ==> x.first.value < s.next)
    && (DoneClosed(x) ==> x.why.Some?)
    && (x.children != {} ==> x.done.Made?)
    && (x.why.Some? && x.lock.None? ==> DoneClosed(x) && x.children == {})
    && (x.why.Some? && !x.direct ==> FromAbove(s, n))
    && (x.lock.Some? ==> Holds(s, x.lock.value, n))
    && (x.reg.Some? ==> Registrar(s, n))
    && (Early(s, n) ==> x.why.None? && x.timer.NoTimer?)
    && (x.timer.Armed? ==> s.tree[n].kind.TimerCtx? && (x.why.Some? ==> FirstBusy(s, n)))
    && (x.timer.Passed? ==> x.why.Some? || (Registrar(s, n) && s.acts[x.reg.value].npc.Expiring?))
    && (x.once.Started? ==> x.why.Some?)
    && (s.tree[n].kind.AfterFuncCtx? && x.once.Fresh? && x.why.Some? ==> FirstBusy(s, n))
  }

  function Callee(c: Call): Option<Act> {
    if c.Cancel? then if c.pc.Child? then Some(c.pc.callee) else None
    else if c.npc.Calling? || c.npc.CallingHeld? || c.npc.Expiring? then Some(c.npc.callee) else None
  }

  ghost predicate CalleeOk(s: State, r: Act, b: Act, m: Id, why: Reason) {
    && b in s.acts && s.acts[b].Cancel? && s.acts[b].n == m && s.acts[b].ret == Some(r)
    && !s.acts[b].rm && !s.acts[b].direct && s.acts[b].why == why
  }

  ghost predicate CancelOk(s: State, a: Act)
    requires Sane(s) && a in s.acts && s.acts[a].Cancel? && s.acts[a].n < |s.nodes|
  {
    var c := s.acts[a];
    var x := s.nodes[c.n];
    && !Early(s, c.n)
    && (c.direct && !c.rm ==> x.why.Some?)
    && (!c.direct ==> !c.rm && c.ret.Some?)
    && (c.ret.Some? ==> c.ret.value in s.acts && Callee(s.acts[c.ret.value]) == Some(a))
    && (!c.pc.Enter? ==> x.why.Some?)
    && (Active(c.pc) ==> x.lock == Some(a) && x.first == Some(a) && x.why == Some(c.why))
    && (c.pc.Close? ==> !DoneClosed(x))
    && (c.pc.Loop? || c.pc.Child? ==> DoneClosed(x) && c.pc.todo <= x.children)
    && (c.pc.Child? ==> c.pc.m in x.children && CalleeOk(s, a, c.pc.callee, c.pc.m, c.why))
    && (c.pc.Unlink? ==> c.rm && Up(s.tree, c.n).Some? && s.nodes[Up(s.tree, c.n).value].done.Made?)
  }

  ghost predicate NewOk(s: State, a: Act)
    requires Sane(s) && a in s.acts && s.acts[a].New? && s.acts[a].n < |s.nodes|
  {
    var c := s.acts[a];
    var x := s.nodes[c.n];
    var up := Up(s.tree, c.n);
    && x.reg == Some(a)
    && match c.npc
       case Select => up.Some? && !s.nodes[up.value].done.Unset?
       case ReadCause => up.Some? && DoneClosed(s.nodes[up.value])
       case Lookup => up.Some? && s.nodes[up.value].done.Made?
       case Enlist => up.Some? && s.nodes[up.value].done.Made?
       case Calling(b) => up.Some? && s.nodes[up.value].why.Some? && CalleeOk(s, a, b, c.n, s.nodes[up.value].why.value)
       case CallingHeld(b) => up.Some? && OverHeld(s.nodes[up.value], a)
           && CalleeOk(s, a, b, c.n, s.nodes[up.value].why.value)
       case Release => up.Some? && OverHeld(s.nodes[up.value], a) && x.why.Some?
       case Expiring(b) =>
         && b in s.acts && s.acts[b].Cancel? && s.acts[b].n == c.n && s.acts[b].ret == Some(a)
         && s.acts[b].rm && s.acts[b].direct && x.timer.Passed?
       case Publish => x.why.Some?
       case Fallback => false
       case _ => true
  }

  /** A parent whose cancellation is over, locked by a registering call. */
  ghost predicate OverHeld(p: Node, a: Act) {
    p.why.Some? && p.lock == Some(a) && DoneClosed(p) && p.children == {}
  }

  ghost predicate ActOk(s: State, a: Act)
    requires Sane(s) && a in s.acts
  {
    && a < s.next && s.acts[a].n < |s.nodes| && IsCancel(s.tree[s.acts[a].n].kind)
    && if s.acts[a].Cancel? then CancelOk(s, a) else NewOk(s, a)
  }

  /** The cancellation of p, in progress, has yet to reach its child m. */
  ghost predicate Pending(s: State, p: Id, m: Id)
    requires p < |s.nodes|
  {
    var h := s.nodes[p].lock;
    && h.Some? && h.value in s.acts && s.acts[h.value].Cancel?
    && match s.acts[h.value].pc
       case Close => true
       case Loop(todo) => m in todo
       case Child(todo, k, _) => m in todo || m == k
       case _ => false
  }

  /** A context not cancelled yet is known to its parent, or about to be. */
  ghost predicate LinkOk(s: State, m: Id)
    requires Sane(s) && m < |s.nodes|
  {
    var up := Up(s.tree, m);
    IsCancel(s.tree[m].kind) && up.Some? && s.nodes[m].why.None? ==>
      Registering(s, m) ||
      (m in s.nodes[up.value].children && (s.nodes[up.value].why.None? || Pending(s, up.value, m)))
  }

  /** The call that cancelled m will take it out of its parent's children. */
  ghost predicate Removing(s: State, m: Id)
    requires m < |s.nodes|
  {
    FirstBusy(s, m) && s.acts[s.nodes[m].first.value].rm && !s.acts[s.nodes[m].first.value].pc.Finish?
  }

  ghost predicate ChildOk(s: State, p: Id, m: Id)
    requires Sane(s) && p < |s.nodes|
  {
    m in s.nodes[p].children ==>
      && m < |s.nodes| && IsCancel(s.tree[m].kind) && Up(s.tree, m) == Some(p)
      && !Registering(s, m)
      && (s.nodes[m].why.Some? ==> (s.nodes[p].why.Some? && s.nodes[p].lock.Some?) || Removing(s, m))
  }

  ghost predicate Inv(s: State) {
    && Sane(s)
    && (forall n :: 0 <= n < |s.nodes| ==> NodeOk(s, n))
    && (forall a :: a in s.acts ==> ActOk(s, a))
    && (forall m :: 0 <= m < |s.nodes| ==> LinkOk(s, m))
    && (forall p, m :: 0 <= p < |s.nodes| ==> ChildOk(s, p, m))
  }
}
