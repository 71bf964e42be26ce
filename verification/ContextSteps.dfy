/** Every step of the cancellation tree keeps its invariant.  For each elementary
    change, `May...` says when it is made, and four lemmas look at one node, one
    call, one node and its parent, and one entry of a children map. */
module ContextSteps {

  import opened Common
  import opened Context

  lemma {:induction false} AnchorGrows(tree: seq<Link>, l: Link, c: Id)
    requires c < |tree|
    ensures Anchor(tree + [l], c) == Anchor(tree, c)
  {
    var p := tree[c].parent;
    if !IsCancel(tree[c].kind) && tree[c].kind.Plain? && p < c {
      AnchorGrows(tree, l, p);
    }
  }

  lemma UpGrows(tree: seq<Link>, l: Link, c: Id)
    requires c < |tree|
    ensures Up(tree + [l], c) == Up(tree, c)
  {
    if !tree[c].kind.Background? && tree[c].parent < c {
      AnchorGrows(tree, l, tree[c].parent);
    }
  }

  // ----- every step keeps the invariant

  lemma Use(s: State, n: Id, a: Act)
    requires Inv(s)
    ensures Sane(s)
    ensures n < |s.nodes| ==> NodeOk(s, n) && LinkOk(s, n)
    ensures a in s.acts ==> ActOk(s, a)
  {
  }

  lemma UseChild(s: State, p: Id, m: Id)
    requires Inv(s) && p < |s.nodes|
    ensures ChildOk(s, p, m)
  {
  }

  // ----- Done() makes the channel

  function Touched(s: State, k: Id): State
    requires k < |s.nodes|
  {
    Put(s, k, WithDone(s.nodes[k]))
  }

  ghost predicate MayTouch(s: State, k: Id) {
    Inv(s) && k < |s.nodes| && IsCancel(s.tree[k].kind) && DoneReady(s, k)
  }

  lemma TouchNode(s: State, k: Id, n: Id)
    requires MayTouch(s, k) && n < |Touched(s, k).nodes|
    ensures NodeOk(Touched(s, k), n) && LinkOk(Touched(s, k), n)
  {
    hide Up, Anchor, Inv;
    Use(s, n, 0);
    var up := Up(s.tree, n);
    if up.Some? { Use(s, up.value, 0); }
  }

  lemma TouchAct(s: State, k: Id, b: Act)
    requires MayTouch(s, k) && b in Touched(s, k).acts
    ensures ActOk(Touched(s, k), b)
  {
    hide Up, Anchor, Inv, LinkOk;
    Use(s, k, b);
  }

  lemma TouchChild(s: State, k: Id, p: Id, m: Id)
    requires MayTouch(s, k) && p < |Touched(s, k).nodes|
    ensures ChildOk(Touched(s, k), p, m)
  {
    hide Up, Anchor, Inv, LinkOk;
    UseChild(s, p, m);
  }

  lemma TouchKeeps(s: State, k: Id)
    requires MayTouch(s, k)
    ensures Inv(Touched(s, k))
  {
    hide NodeOk, ActOk, LinkOk, ChildOk, Up, Anchor;
    var s2 := Touched(s, k);
    forall n | 0 <= n < |s2.nodes| ensures NodeOk(s2, n) && LinkOk(s2, n) { TouchNode(s, k, n); }
    forall b | b in s2.acts ensures ActOk(s2, b) { TouchAct(s, k, b); }
    forall p, m | 0 <= p < |s2.nodes| ensures ChildOk(s2, p, m) { TouchChild(s, k, p, m); }
  }

  // ----- a timer or a once moves on

  function Retimed(s: State, k: Id, t: Timer, o: Once): State
    requires k < |s.nodes|
  {
    Put(s, k, s.nodes[k].(timer := t, once := o))
  }

  ghost predicate MayRetime(s: State, k: Id, t: Timer, o: Once) {
    && Inv(s) && k < |s.nodes| && IsCancel(s.tree[k].kind) && (t.Passed? <==> s.nodes[k].timer.Passed?)
    && (Early(s, k) ==> t.NoTimer?)
    && (o.Started? ==> s.nodes[k].why.Some?)
    && (t.Armed? ==> s.tree[k].kind.TimerCtx? && (s.nodes[k].why.Some? ==> FirstBusy(s, k)))
    && (s.tree[k].kind.AfterFuncCtx? && o.Fresh? && s.nodes[k].why.Some? ==> FirstBusy(s, k))
  }

  lemma RetimeNode(s: State, k: Id, t: Timer, o: Once, n: Id)
    requires MayRetime(s, k, t, o) && n < |Retimed(s, k, t, o).nodes|
    ensures NodeOk(Retimed(s, k, t, o), n)
  {
    hide Up, Anchor, Inv, LinkOk;
    Use(s, n, 0);
    var up := Up(s.tree, n);
  }

  lemma RetimeLink(s: State, k: Id, t: Timer, o: Once, n: Id)
    requires MayRetime(s, k, t, o) && n < |Retimed(s, k, t, o).nodes|
    ensures LinkOk(Retimed(s, k, t, o), n)
  {
    hide Up, Anchor, Inv;
    Use(s, n, 0);
    var up := Up(s.tree, n);
  }

  lemma RetimeCancel(s: State, k: Id, t: Timer, o: Once, b: Act)
    requires MayRetime(s, k, t, o) && b in Retimed(s, k, t, o).acts && Retimed(s, k, t, o).acts[b].Cancel?
    ensures ActOk(Retimed(s, k, t, o), b)
  {
    hide Up, Anchor, Inv, LinkOk;
    Use(s, k, b);
  }

  lemma RetimeNew(s: State, k: Id, t: Timer, o: Once, b: Act)
    requires MayRetime(s, k, t, o) && b in Retimed(s, k, t, o).acts && Retimed(s, k, t, o).acts[b].New?
    ensures ActOk(Retimed(s, k, t, o), b)
  {
    hide Up, Anchor, Inv, LinkOk;
    Use(s, k, b);
  }

  lemma RetimeChild(s: State, k: Id, t: Timer, o: Once, p: Id, m: Id)
    requires MayRetime(s, k, t, o) && p < |Retimed(s, k, t, o).nodes|
    ensures ChildOk(Retimed(s, k, t, o), p, m)
  {
    hide Up, Anchor, Inv, LinkOk;
    UseChild(s, p, m);
  }

  lemma RetimeKeeps(s: State, k: Id, t: Timer, o: Once)
    requires MayRetime(s, k, t, o)
    ensures Inv(Retimed(s, k, t, o))
  {
    hide NodeOk, ActOk, LinkOk, ChildOk, Up, Anchor;
    var s2 := Retimed(s, k, t, o);
    forall n | 0 <= n < |s2.nodes| ensures NodeOk(s2, n) && LinkOk(s2, n) {
      RetimeNode(s, k, t, o, n); RetimeLink(s, k, t, o, n);
    }
    forall b | b in s2.acts ensures ActOk(s2, b) {
      if s2.acts[b].Cancel? { RetimeCancel(s, k, t, o, b); } else { RetimeNew(s, k, t, o, b); }
    }
    forall p, m | 0 <= p < |s2.nodes| ensures ChildOk(s2, p, m) { RetimeChild(s, k, t, o, p, m); }
  }

  // ----- a user or a timer calls cancel

  function Directly(s: State, k: Id, rm: bool, why: Reason): State { Spawn(s, Cancel(k, rm, why, true, Enter, None)) }

  ghost predicate MayDirect(s: State, k: Id, rm: bool, why: Reason) {
    && Inv(s) && k < |s.nodes| && IsCancel(s.tree[k].kind) && !Early(s, k) && (rm || s.nodes[k].why.Some?)
  }

  lemma DirectNode(s: State, k: Id, rm: bool, why: Reason, n: Id)
    requires MayDirect(s, k, rm, why) && n < |Directly(s, k, rm, why).nodes|
    ensures NodeOk(Directly(s, k, rm, why), n) && LinkOk(Directly(s, k, rm, why), n)
  {
    hide Up, Anchor, Inv;
    Use(s, n, s.next);
    var up := Up(s.tree, n);
    if up.Some? { Use(s, up.value, s.next); }
  }

  lemma DirectAct(s: State, k: Id, rm: bool, why: Reason, b: Act)
    requires MayDirect(s, k, rm, why) && b in Directly(s, k, rm, why).acts
    ensures ActOk(Directly(s, k, rm, why), b)
  {
    hide Up, Anchor, Inv, LinkOk;
    Use(s, k, b);
    Use(s, k, s.next);
  }

  lemma DirectChild(s: State, k: Id, rm: bool, why: Reason, p: Id, m: Id)
    requires MayDirect(s, k, rm, why) && p < |Directly(s, k, rm, why).nodes|
    ensures ChildOk(Directly(s, k, rm, why), p, m)
  {
    hide Up, Anchor, Inv, LinkOk;
    UseChild(s, p, m);
    Use(s, m, s.next);
  }

  lemma DirectKeeps(s: State, k: Id, rm: bool, why: Reason)
    requires MayDirect(s, k, rm, why)
    ensures Inv(Directly(s, k, rm, why))
  {
    hide NodeOk, ActOk, LinkOk, ChildOk, Up, Anchor;
    var s2 := Directly(s, k, rm, why);
    forall n | 0 <= n < |s2.nodes| ensures NodeOk(s2, n) && LinkOk(s2, n) { DirectNode(s, k, rm, why, n); }
    forall b | b in s2.acts ensures ActOk(s2, b) { DirectAct(s, k, rm, why, b); }
    forall p, m | 0 <= p < |s2.nodes| ensures ChildOk(s2, p, m) { DirectChild(s, k, rm, why, p, m); }
  }

  // ----- the first cancel stores its reason

  ghost predicate MayWin(s: State, a: Act) {
    Inv(s) && IsCall(s, a) && s.acts[a].pc.Enter? && s.nodes[s.acts[a].n].lock.None? && s.nodes[s.acts[a].n].why.None?
  }

  lemma WinNode(s: State, a: Act, n: Id)
    requires MayWin(s, a) && n < |WinStep(s, a).nodes|
    ensures NodeOk(WinStep(s, a), n)
  {
    hide Up, Anchor, Inv, LinkOk;
    var c := s.acts[a];
    Use(s, n, a);
    var up := Up(s.tree, n);
    if up.Some? { Use(s, up.value, a); }
    if n == c.n && c.ret.Some? {
      Use(s, n, c.ret.value);
      if s.acts[c.ret.value].Cancel? { UseChild(s, s.acts[c.ret.value].n, c.n); }
    }
  }

  lemma WinLink(s: State, a: Act, n: Id)
    requires MayWin(s, a) && n < |WinStep(s, a).nodes|
    ensures LinkOk(WinStep(s, a), n)
  {
    hide Up, Anchor, Inv;
    var c := s.acts[a];
    Use(s, n, a);
    var up := Up(s.tree, n);
    if up.Some? { Use(s, up.value, a); }
    if n == c.n && c.ret.Some? {
      Use(s, n, c.ret.value);
      if s.acts[c.ret.value].Cancel? { UseChild(s, s.acts[c.ret.value].n, c.n); }
    }
  }

  lemma WinCancel(s: State, a: Act, b: Act)
    requires MayWin(s, a) && b in WinStep(s, a).acts && WinStep(s, a).acts[b].Cancel?
    ensures ActOk(WinStep(s, a), b)
  {
    hide Up, Anchor, Inv, LinkOk;
    Use(s, s.acts[a].n, a);
    Use(s, s.acts[a].n, b);
  }

  lemma WinNew(s: State, a: Act, b: Act)
    requires MayWin(s, a) && b in WinStep(s, a).acts && WinStep(s, a).acts[b].New?
    ensures ActOk(WinStep(s, a), b)
  {
    hide Up, Anchor, Inv, LinkOk;
    Use(s, s.acts[a].n, a);
    Use(s, s.acts[a].n, b);
  }

  lemma WinChild(s: State, a: Act, p: Id, m: Id)
    requires MayWin(s, a) && p < |WinStep(s, a).nodes|
    ensures ChildOk(WinStep(s, a), p, m)
  {
    hide Up, Anchor, Inv, LinkOk;
    var c := s.acts[a];
    Use(s, m, a);
    UseChild(s, p, m);
    if c.ret.Some? && m == c.n {
      Use(s, p, c.ret.value);
      if s.acts[c.ret.value].Cancel? { UseChild(s, s.acts[c.ret.value].n, m); }
    }
  }

  lemma WinKeeps(s: State, a: Act)
    requires MayWin(s, a)
    ensures Inv(WinStep(s, a))
  {
    hide NodeOk, ActOk, LinkOk, ChildOk, Up, Anchor;
    var s2 := WinStep(s, a);
    forall n | 0 <= n < |s2.nodes| ensures NodeOk(s2, n) && LinkOk(s2, n) { WinNode(s, a, n); WinLink(s, a, n); }
    forall b | b in s2.acts ensures ActOk(s2, b) {
      if s2.acts[b].Cancel? { WinCancel(s, a, b); } else { WinNew(s, a, b); }
    }
    forall p, m | 0 <= p < |s2.nodes| ensures ChildOk(s2, p, m) { WinChild(s, a, p, m); }
  }

  // ----- the channel is closed

  ghost predicate MayClose(s: State, a: Act) {
    Inv(s) && IsCall(s, a) && s.acts[a].pc.Close?
  }

  lemma CloseNode(s: State, a: Act, n: Id)
    requires MayClose(s, a) && n < |CloseStep(s, a).nodes|
    ensures NodeOk(CloseStep(s, a), n) && LinkOk(CloseStep(s, a), n)
  {
    hide Up, Anchor, Inv;
    Use(s, n, a);
    var up := Up(s.tree, n);
    if up.Some? { Use(s, up.value, a); }
  }

  lemma CloseCancel(s: State, a: Act, b: Act)
    requires MayClose(s, a) && b in CloseStep(s, a).acts && CloseStep(s, a).acts[b].Cancel?
    ensures ActOk(CloseStep(s, a), b)
  {
    hide Up, Anchor, Inv, LinkOk;
    Use(s, s.acts[a].n, a);
    Use(s, s.acts[a].n, b);
  }

  lemma CloseNew(s: State, a: Act, b: Act)
    requires MayClose(s, a) && b in CloseStep(s, a).acts && CloseStep(s, a).acts[b].New?
    ensures ActOk(CloseStep(s, a), b)
  {
    hide Up, Anchor, Inv, LinkOk;
    Use(s, s.acts[a].n, a);
    Use(s, s.acts[a].n, b);
  }

  lemma CloseChild(s: State, a: Act, p: Id, m: Id)
    requires MayClose(s, a) && p < |CloseStep(s, a).nodes|
    ensures ChildOk(CloseStep(s, a), p, m)
  {
    hide Up, Anchor, Inv, LinkOk;
    Use(s, s.acts[a].n, a);
    UseChild(s, p, m);
  }

  lemma CloseKeeps(s: State, a: Act)
    requires MayClose(s, a)
    ensures Inv(CloseStep(s, a))
  {
    hide NodeOk, ActOk, LinkOk, ChildOk, Up, Anchor;
    var s2 := CloseStep(s, a);
    forall n | 0 <= n < |s2.nodes| ensures NodeOk(s2, n) && LinkOk(s2, n) { CloseNode(s, a, n); }
    forall b | b in s2.acts ensures ActOk(s2, b) {
      if s2.acts[b].Cancel? { CloseCancel(s, a, b); } else { CloseNew(s, a, b); }
    }
    forall p, m | 0 <= p < |s2.nodes| ensures ChildOk(s2, p, m) { CloseChild(s, a, p, m); }
  }

  // ----- a child is cancelled in turn

  ghost predicate MayDescend(s: State, a: Act, k: Id) {
    Inv(s) && IsCall(s, a) && s.acts[a].pc.Loop? && k in s.acts[a].pc.todo
  }

  lemma DescendNode(s: State, a: Act, k: Id, n: Id)
    requires MayDescend(s, a, k) && n < |ChildStep(s, a, k).nodes|
    ensures NodeOk(ChildStep(s, a, k), n) && LinkOk(ChildStep(s, a, k), n)
  {
    hide Up, Anchor, Inv;
    Use(s, n, a);
    Use(s, n, s.next);
    var up := Up(s.tree, n);
    if up.Some? { Use(s, up.value, a); }
  }

  lemma DescendCancel(s: State, a: Act, k: Id, b: Act)
    requires MayDescend(s, a, k) && b in ChildStep(s, a, k).acts && ChildStep(s, a, k).acts[b].Cancel?
    ensures ActOk(ChildStep(s, a, k), b)
  {
    hide Up, Anchor, Inv, LinkOk;
    Use(s, s.acts[a].n, a);
    Use(s, s.acts[a].n, b);
    Use(s, k, s.next);
    UseChild(s, s.acts[a].n, k);
  }

  lemma DescendNew(s: State, a: Act, k: Id, b: Act)
    requires MayDescend(s, a, k) && b in ChildStep(s, a, k).acts && ChildStep(s, a, k).acts[b].New?
    ensures ActOk(ChildStep(s, a, k), b)
  {
    hide Up, Anchor, Inv, LinkOk;
    Use(s, s.acts[a].n, a);
    Use(s, s.acts[a].n, b);
    Use(s, k, s.next);
    UseChild(s, s.acts[a].n, k);
  }

  lemma DescendChild(s: State, a: Act, k: Id, p: Id, m: Id)
    requires MayDescend(s, a, k) && p < |ChildStep(s, a, k).nodes|
    ensures ChildOk(ChildStep(s, a, k), p, m)
  {
    hide Up, Anchor, Inv, LinkOk;
    Use(s, m, a);
    UseChild(s, p, m);
  }

  lemma DescendKeeps(s: State, a: Act, k: Id)
    requires MayDescend(s, a, k)
    ensures Inv(ChildStep(s, a, k))
  {
    hide NodeOk, ActOk, LinkOk, ChildOk, Up, Anchor;
    var s2 := ChildStep(s, a, k);
    forall n | 0 <= n < |s2.nodes| ensures NodeOk(s2, n) && LinkOk(s2, n) { DescendNode(s, a, k, n); }
    forall b | b in s2.acts ensures ActOk(s2, b) {
      if s2.acts[b].Cancel? { DescendCancel(s, a, k, b); } else { DescendNew(s, a, k, b); }
    }
    forall p, m | 0 <= p < |s2.nodes| ensures ChildOk(s2, p, m) { DescendChild(s, a, k, p, m); }
  }

  // ----- the children are forgotten and the lock is released

  ghost predicate MayDone(s: State, a: Act) {
    Inv(s) && IsCall(s, a) && s.acts[a].pc == Loop({})
  }

  lemma DoneNode(s: State, a: Act, n: Id)
    requires MayDone(s, a) && n < |DoneStep(s, a).nodes|
    ensures NodeOk(DoneStep(s, a), n)
  {
    hide Up, Anchor, Inv, LinkOk;
    Use(s, n, a);
    var up := Up(s.tree, n);
    if up.Some? { Use(s, up.value, a); }
  }

  lemma DoneLink(s: State, a: Act, n: Id)
    requires MayDone(s, a) && n < |DoneStep(s, a).nodes|
    ensures LinkOk(DoneStep(s, a), n)
  {
    hide Up, Anchor, Inv;
    Use(s, n, a);
    var up := Up(s.tree, n);
    if up.Some? { Use(s, up.value, a); }
  }

  lemma DoneCancel(s: State, a: Act, b: Act)
    requires MayDone(s, a) && b in DoneStep(s, a).acts && DoneStep(s, a).acts[b].Cancel?
    ensures ActOk(DoneStep(s, a), b)
  {
    hide Up, Anchor, Inv, LinkOk;
    Use(s, s.acts[a].n, a);
    Use(s, s.acts[a].n, b);
  }

  lemma DoneNew(s: State, a: Act, b: Act)
    requires MayDone(s, a) && b in DoneStep(s, a).acts && DoneStep(s, a).acts[b].New?
    ensures ActOk(DoneStep(s, a), b)
  {
    hide Up, Anchor, Inv, LinkOk;
    Use(s, s.acts[a].n, a);
    Use(s, s.acts[a].n, b);
  }

  lemma DoneChild(s: State, a: Act, p: Id, m: Id)
    requires MayDone(s, a) && p < |DoneStep(s, a).nodes|
    ensures ChildOk(DoneStep(s, a), p, m)
  {
    hide Up, Anchor, Inv, LinkOk;
    Use(s, s.acts[a].n, a);
    UseChild(s, p, m);
  }

  lemma DoneKeeps(s: State, a: Act)
    requires MayDone(s, a)
    ensures Inv(DoneStep(s, a))
  {
    hide NodeOk, ActOk, LinkOk, ChildOk, Up, Anchor;
    var s2 := DoneStep(s, a);
    forall n | 0 <= n < |s2.nodes| ensures NodeOk(s2, n) && LinkOk(s2, n) { DoneNode(s, a, n); DoneLink(s, a, n); }
    forall b | b in s2.acts ensures ActOk(s2, b) {
      if s2.acts[b].Cancel? { DoneCancel(s, a, b); } else { DoneNew(s, a, b); }
    }
    forall p, m | 0 <= p < |s2.nodes| ensures ChildOk(s2, p, m) { DoneChild(s, a, p, m); }
  }

  // ----- a cancel goes on without its own lock

  ghost predicate MaySlide(s: State, a: Act, q: CancelPc) {
    && Inv(s) && IsCall(s, a) && (s.acts[a].pc.Enter? || s.acts[a].pc.Remove?) && s.nodes[s.acts[a].n].why.Some?
    && (q.Remove? || q.Unlink? || q.Finish?)
    && var up := Up(s.tree, s.acts[a].n);
       && (q.Unlink? ==> s.acts[a].rm && up.Some? && s.nodes[up.value].done.Made?)
       && (q.Finish? && s.acts[a].rm && up.Some? ==> s.nodes[up.value].children == {})
  }

  lemma SlideNode(s: State, a: Act, q: CancelPc, n: Id)
    requires MaySlide(s, a, q) && n < |Slide(s, a, q).nodes|
    ensures NodeOk(Slide(s, a, q), n) && LinkOk(Slide(s, a, q), n)
  {
    hide Up, Anchor, Inv;
    Use(s, n, a);
    var up := Up(s.tree, n);
    if up.Some? { Use(s, up.value, a); }
  }

  lemma SlideCancel(s: State, a: Act, q: CancelPc, b: Act)
    requires MaySlide(s, a, q) && b in Slide(s, a, q).acts && Slide(s, a, q).acts[b].Cancel?
    ensures ActOk(Slide(s, a, q), b)
  {
    hide Up, Anchor, Inv, LinkOk;
    Use(s, s.acts[a].n, a);
    Use(s, s.acts[a].n, b);
  }

  lemma SlideNew(s: State, a: Act, q: CancelPc, b: Act)
    requires MaySlide(s, a, q) && b in Slide(s, a, q).acts && Slide(s, a, q).acts[b].New?
    ensures ActOk(Slide(s, a, q), b)
  {
    hide Up, Anchor, Inv, LinkOk;
    Use(s, s.acts[a].n, a);
    Use(s, s.acts[a].n, b);
  }

  lemma SlideChild(s: State, a: Act, q: CancelPc, p: Id, m: Id)
    requires MaySlide(s, a, q) && p < |Slide(s, a, q).nodes|
    ensures ChildOk(Slide(s, a, q), p, m)
  {
    hide Up, Anchor, Inv, LinkOk;
    Use(s, m, a);
    UseChild(s, p, m);
  }

  lemma SlideKeeps(s: State, a: Act, q: CancelPc)
    requires MaySlide(s, a, q)
    ensures Inv(Slide(s, a, q))
  {
    hide NodeOk, ActOk, LinkOk, ChildOk, Up, Anchor;
    var s2 := Slide(s, a, q);
    forall n | 0 <= n < |s2.nodes| ensures NodeOk(s2, n) && LinkOk(s2, n) { SlideNode(s, a, q, n); }
    forall b | b in s2.acts ensures ActOk(s2, b) {
      if s2.acts[b].Cancel? { SlideCancel(s, a, q, b); } else { SlideNew(s, a, q, b); }
    }
    forall p, m | 0 <= p < |s2.nodes| ensures ChildOk(s2, p, m) { SlideChild(s, a, q, p, m); }
  }

  // ----- removeChild

  function Unlinked(s: State, a: Act): State
    requires Sane(s) && IsCall(s, a) && Up(s.tree, s.acts[a].n).Some?
  {
    UnlinkStep(s, a, Up(s.tree, s.acts[a].n).value)
  }

  ghost predicate MayUnlink(s: State, a: Act) {
    && Inv(s) && IsCall(s, a) && s.acts[a].pc.Unlink?
    && var up := Up(s.tree, s.acts[a].n); up.Some? && s.nodes[up.value].lock.None?
  }

  lemma UnlinkNode(s: State, a: Act, n: Id)
    requires MayUnlink(s, a) && n < |Unlinked(s, a).nodes|
    ensures NodeOk(Unlinked(s, a), n)
  {
    hide Up, Anchor, Inv, LinkOk;
    Use(s, n, a);
    var up := Up(s.tree, n);
    if up.Some? { Use(s, up.value, a); }
  }

  lemma UnlinkLink(s: State, a: Act, n: Id)
    requires MayUnlink(s, a) && n < |Unlinked(s, a).nodes|
    ensures LinkOk(Unlinked(s, a), n)
  {
    hide Up, Anchor, Inv;
    Use(s, n, a);
    var up := Up(s.tree, n);
    if up.Some? { Use(s, up.value, a); }
  }

  lemma UnlinkCancel(s: State, a: Act, b: Act)
    requires MayUnlink(s, a) && b in Unlinked(s, a).acts && Unlinked(s, a).acts[b].Cancel?
    ensures ActOk(Unlinked(s, a), b)
  {
    hide Up, Anchor, Inv, LinkOk;
    Use(s, s.acts[a].n, a);
    Use(s, s.acts[a].n, b);
  }

  lemma UnlinkNew(s: State, a: Act, b: Act)
    requires MayUnlink(s, a) && b in Unlinked(s, a).acts && Unlinked(s, a).acts[b].New?
    ensures ActOk(Unlinked(s, a), b)
  {
    hide Up, Anchor, Inv, LinkOk;
    Use(s, s.acts[a].n, a);
    Use(s, s.acts[a].n, b);
  }

  lemma UnlinkChild(s: State, a: Act, p: Id, m: Id)
    requires MayUnlink(s, a) && p < |Unlinked(s, a).nodes|
    ensures ChildOk(Unlinked(s, a), p, m)
  {
    hide Up, Anchor, Inv, LinkOk;
    Use(s, m, a);
    UseChild(s, p, m);
  }

  lemma UnlinkKeeps(s: State, a: Act)
    requires MayUnlink(s, a)
    ensures Inv(Unlinked(s, a))
  {
    hide NodeOk, ActOk, LinkOk, ChildOk, Up, Anchor;
    var s2 := Unlinked(s, a);
    forall n | 0 <= n < |s2.nodes| ensures NodeOk(s2, n) && LinkOk(s2, n) { UnlinkNode(s, a, n); UnlinkLink(s, a, n); }
    forall b | b in s2.acts ensures ActOk(s2, b) {
      if s2.acts[b].Cancel? { UnlinkCancel(s, a, b); } else { UnlinkNew(s, a, b); }
    }
    forall p, m | 0 <= p < |s2.nodes| ensures ChildOk(s2, p, m) { UnlinkChild(s, a, p, m); }
  }

  // ----- a cancel returns

  ghost predicate MayReturn(s: State, a: Act) {
    && Inv(s) && IsCall(s, a) && s.nodes[s.acts[a].n].why.Some?
    && var k := s.tree[s.acts[a].n].kind;
       var x := s.nodes[s.acts[a].n];
       if s.acts[a].pc.Enter? then k.CancelCtx?
       else s.acts[a].pc.Finish? && !x.timer.Armed? && (k.AfterFuncCtx? ==> !x.once.Fresh?)
  }

  lemma ReturnNode(s: State, a: Act, n: Id)
    requires MayReturn(s, a) && n < |Return(s, a).nodes|
    ensures NodeOk(Return(s, a), n)
  {
    hide Up, Anchor, Inv, LinkOk;
    var c := s.acts[a];
    Use(s, n, a);
    if c.ret.Some? { Use(s, n, c.ret.value); }
  }

  lemma ReturnLink(s: State, a: Act, n: Id)
    requires MayReturn(s, a) && n < |Return(s, a).nodes|
    ensures LinkOk(Return(s, a), n)
  {
    hide Up, Anchor, Inv;
    var c := s.acts[a];
    Use(s, n, a);
    if c.ret.Some? { Use(s, n, c.ret.value); }
  }

  lemma ReturnCancel(s: State, a: Act, b: Act)
    requires MayReturn(s, a) && b in Return(s, a).acts && Return(s, a).acts[b].Cancel?
    ensures ActOk(Return(s, a), b)
  {
    hide Up, Anchor, Inv, LinkOk;
    var c := s.acts[a];
    Use(s, c.n, a);
    Use(s, c.n, b);
    if c.ret.Some? { Use(s, c.n, c.ret.value); }
  }

  lemma ReturnNew(s: State, a: Act, b: Act)
    requires MayReturn(s, a) && b in Return(s, a).acts && Return(s, a).acts[b].New?
    ensures ActOk(Return(s, a), b)
  {
    hide Up, Anchor, Inv, LinkOk;
    var c := s.acts[a];
    Use(s, c.n, a);
    Use(s, c.n, b);
    if c.ret.Some? { Use(s, c.n, c.ret.value); }
  }

  lemma ReturnChild(s: State, a: Act, p: Id, m: Id)
    requires MayReturn(s, a) && p < |Return(s, a).nodes|
    ensures ChildOk(Return(s, a), p, m)
  {
    hide Up, Anchor, Inv, LinkOk;
    var c := s.acts[a];
    Use(s, m, a);
    if c.ret.Some? { Use(s, m, c.ret.value); }
    UseChild(s, p, m);
  }

  lemma ReturnKeeps(s: State, a: Act)
    requires MayReturn(s, a)
    ensures Inv(Return(s, a))
  {
    hide NodeOk, ActOk, LinkOk, ChildOk, Up, Anchor;
    var s2 := Return(s, a);
    forall n | 0 <= n < |s2.nodes| ensures NodeOk(s2, n) && LinkOk(s2, n) { ReturnNode(s, a, n); ReturnLink(s, a, n); }
    forall b | b in s2.acts ensures ActOk(s2, b) {
      if s2.acts[b].Cancel? { ReturnCancel(s, a, b); } else { ReturnNew(s, a, b); }
    }
    forall p, m | 0 <= p < |s2.nodes| ensures ChildOk(s2, p, m) { ReturnChild(s, a, p, m); }
  }

  // ----- a constructor goes on

  ghost predicate MayForward(s: State, a: Act, q: NewPc) {
    && Inv(s) && IsNew(s, a) && EarlyPc(s.acts[a].npc)
    && var up := Up(s.tree, s.acts[a].n);
       match q
       case Select => up.Some? && !s.nodes[up.value].done.Unset?
       case ReadCause => up.Some? && DoneClosed(s.nodes[up.value])
       case Lookup => up.Some? && s.nodes[up.value].done.Made?
       case Enlist => up.Some? && s.nodes[up.value].done.Made?
       case Deadline => up.None?
       case _ => false
  }

  lemma ForwardNode(s: State, a: Act, q: NewPc, n: Id)
    requires MayForward(s, a, q) && n < |Forward(s, a, q).nodes|
    ensures NodeOk(Forward(s, a, q), n) && LinkOk(Forward(s, a, q), n)
  {
    hide Up, Anchor, Inv;
    Use(s, n, a);
    var up := Up(s.tree, n);
    if up.Some? { Use(s, up.value, a); }
  }

  lemma ForwardAct(s: State, a: Act, q: NewPc, b: Act)
    requires MayForward(s, a, q) && b in Forward(s, a, q).acts
    ensures ActOk(Forward(s, a, q), b)
  {
    hide Up, Anchor, Inv, LinkOk;
    Use(s, s.acts[a].n, a);
    Use(s, s.acts[a].n, b);
  }

  lemma ForwardChild(s: State, a: Act, q: NewPc, p: Id, m: Id)
    requires MayForward(s, a, q) && p < |Forward(s, a, q).nodes|
    ensures ChildOk(Forward(s, a, q), p, m)
  {
    hide Up, Anchor, Inv, LinkOk;
    Use(s, m, a);
    UseChild(s, p, m);
  }

  lemma ForwardKeeps(s: State, a: Act, q: NewPc)
    requires MayForward(s, a, q)
    ensures Inv(Forward(s, a, q))
  {
    hide NodeOk, ActOk, LinkOk, ChildOk, Up, Anchor;
    var s2 := Forward(s, a, q);
    forall n | 0 <= n < |s2.nodes| ensures NodeOk(s2, n) && LinkOk(s2, n) { ForwardNode(s, a, q, n); }
    forall b | b in s2.acts ensures ActOk(s2, b) { ForwardAct(s, a, q, b); }
    forall p, m | 0 <= p < |s2.nodes| ensures ChildOk(s2, p, m) { ForwardChild(s, a, q, p, m); }
  }

  // ----- the parent was cancelled before

  function Called(s: State, a: Act): State
    requires Sane(s) && IsNew(s, a) && Up(s.tree, s.acts[a].n).Some? && s.nodes[Up(s.tree, s.acts[a].n).value].why.Some?
  {
    CallStep(s, a, s.nodes[Up(s.tree, s.acts[a].n).value].why.value)
  }

  ghost predicate MayCall(s: State, a: Act) {
    && Inv(s) && IsNew(s, a) && s.acts[a].npc.ReadCause?
    && var up := Up(s.tree, s.acts[a].n); up.Some? && s.nodes[up.value].why.Some?
  }

  lemma CallNode(s: State, a: Act, n: Id)
    requires MayCall(s, a) && n < |Called(s, a).nodes|
    ensures NodeOk(Called(s, a), n) && LinkOk(Called(s, a), n)
  {
    hide Up, Anchor, Inv;
    Use(s, n, a);
    Use(s, n, s.next);
    var up := Up(s.tree, n);
    if up.Some? { Use(s, up.value, a); }
  }

  lemma CallAct(s: State, a: Act, b: Act)
    requires MayCall(s, a) && b in Called(s, a).acts
    ensures ActOk(Called(s, a), b)
  {
    hide Up, Anchor, Inv, LinkOk;
    Use(s, s.acts[a].n, a);
    Use(s, s.acts[a].n, b);
    Use(s, s.acts[a].n, s.next);
  }

  lemma CallChild(s: State, a: Act, p: Id, m: Id)
    requires MayCall(s, a) && p < |Called(s, a).nodes|
    ensures ChildOk(Called(s, a), p, m)
  {
    hide Up, Anchor, Inv, LinkOk;
    Use(s, m, a);
    UseChild(s, p, m);
    Use(s, m, s.next);
  }

  lemma CallKeeps(s: State, a: Act)
    requires MayCall(s, a)
    ensures Inv(Called(s, a))
  {
    hide NodeOk, ActOk, LinkOk, ChildOk, Up, Anchor;
    var s2 := Called(s, a);
    forall n | 0 <= n < |s2.nodes| ensures NodeOk(s2, n) && LinkOk(s2, n) { CallNode(s, a, n); }
    forall b | b in s2.acts ensures ActOk(s2, b) { CallAct(s, a, b); }
    forall p, m | 0 <= p < |s2.nodes| ensures ChildOk(s2, p, m) { CallChild(s, a, p, m); }
  }

  // ----- the parent was cancelled, as its lock shows

  function CalledHeld(s: State, a: Act): State
    requires Sane(s) && IsNew(s, a) && Up(s.tree, s.acts[a].n).Some? && s.nodes[Up(s.tree, s.acts[a].n).value].why.Some?
  {
    CallHeldStep(s, a, Up(s.tree, s.acts[a].n).value)
  }

  ghost predicate MayCallHeld(s: State, a: Act) {
    && Inv(s) && IsNew(s, a) && s.acts[a].npc.Enlist?
    && var up := Up(s.tree, s.acts[a].n); up.Some? && s.nodes[up.value].why.Some? && s.nodes[up.value].lock.None?
  }

  lemma CallHeldNode(s: State, a: Act, n: Id)
    requires MayCallHeld(s, a) && n < |CalledHeld(s, a).nodes|
    ensures NodeOk(CalledHeld(s, a), n) && LinkOk(CalledHeld(s, a), n)
  {
    hide Up, Anchor, Inv;
    Use(s, n, a);
    Use(s, n, s.next);
    var up := Up(s.tree, n);
    if up.Some? { Use(s, up.value, a); }
  }

  lemma CallHeldCancel(s: State, a: Act, b: Act)
    requires MayCallHeld(s, a) && b in CalledHeld(s, a).acts && CalledHeld(s, a).acts[b].Cancel?
    ensures ActOk(CalledHeld(s, a), b)
  {
    hide Up, Anchor, Inv, LinkOk;
    Use(s, s.acts[a].n, a);
    Use(s, Up(s.tree, s.acts[a].n).value, b);
    Use(s, s.acts[a].n, s.next);
  }

  lemma CallHeldNew(s: State, a: Act, b: Act)
    requires MayCallHeld(s, a) && b in CalledHeld(s, a).acts && CalledHeld(s, a).acts[b].New?
    ensures ActOk(CalledHeld(s, a), b)
  {
    hide Up, Anchor, Inv, LinkOk;
    Use(s, s.acts[a].n, a);
    Use(s, Up(s.tree, s.acts[a].n).value, b);
    Use(s, s.acts[a].n, s.next);
  }

  lemma CallHeldChild(s: State, a: Act, p: Id, m: Id)
    requires MayCallHeld(s, a) && p < |CalledHeld(s, a).nodes|
    ensures ChildOk(CalledHeld(s, a), p, m)
  {
    hide Up, Anchor, Inv, LinkOk;
    Use(s, m, a);
    UseChild(s, p, m);
    Use(s, p, s.next);
  }

  lemma CallHeldKeeps(s: State, a: Act)
    requires MayCallHeld(s, a)
    ensures Inv(CalledHeld(s, a))
  {
    hide NodeOk, ActOk, LinkOk, ChildOk, Up, Anchor;
    var s2 := CalledHeld(s, a);
    forall n | 0 <= n < |s2.nodes| ensures NodeOk(s2, n) && LinkOk(s2, n) { CallHeldNode(s, a, n); }
    forall b | b in s2.acts ensures ActOk(s2, b) {
      if s2.acts[b].Cancel? { CallHeldCancel(s, a, b); } else { CallHeldNew(s, a, b); }
    }
    forall p, m | 0 <= p < |s2.nodes| ensures ChildOk(s2, p, m) { CallHeldChild(s, a, p, m); }
  }

  // ----- the child is registered

  function Enlisted(s: State, a: Act): State
    requires Sane(s) && IsNew(s, a) && Up(s.tree, s.acts[a].n).Some?
  {
    EnlistStep(s, a, Up(s.tree, s.acts[a].n).value)
  }

  ghost predicate MayEnlist(s: State, a: Act) {
    && Inv(s) && IsNew(s, a) && s.acts[a].npc.Enlist?
    && var up := Up(s.tree, s.acts[a].n); up.Some? && s.nodes[up.value].why.None? && s.nodes[up.value].lock.None?
  }

  lemma EnlistNode(s: State, a: Act, n: Id)
    requires MayEnlist(s, a) && n < |Enlisted(s, a).nodes|
    ensures NodeOk(Enlisted(s, a), n) && LinkOk(Enlisted(s, a), n)
  {
    hide Up, Anchor, Inv;
    Use(s, n, a);
    var up := Up(s.tree, n);
    if up.Some? { Use(s, up.value, a); }
  }

  lemma EnlistAct(s: State, a: Act, b: Act)
    requires MayEnlist(s, a) && b in Enlisted(s, a).acts
    ensures ActOk(Enlisted(s, a), b)
  {
    hide Up, Anchor, Inv, LinkOk;
    Use(s, s.acts[a].n, a);
    Use(s, s.acts[a].n, b);
  }

  lemma EnlistChild(s: State, a: Act, p: Id, m: Id)
    requires MayEnlist(s, a) && p < |Enlisted(s, a).nodes|
    ensures ChildOk(Enlisted(s, a), p, m)
  {
    hide Up, Anchor, Inv, LinkOk;
    Use(s, m, a);
    UseChild(s, p, m);
  }

  lemma EnlistKeeps(s: State, a: Act)
    requires MayEnlist(s, a)
    ensures Inv(Enlisted(s, a))
  {
    hide NodeOk, ActOk, LinkOk, ChildOk, Up, Anchor;
    var s2 := Enlisted(s, a);
    forall n | 0 <= n < |s2.nodes| ensures NodeOk(s2, n) && LinkOk(s2, n) { EnlistNode(s, a, n); }
    forall b | b in s2.acts ensures ActOk(s2, b) { EnlistAct(s, a, b); }
    forall p, m | 0 <= p < |s2.nodes| ensures ChildOk(s2, p, m) { EnlistChild(s, a, p, m); }
  }

  // ----- the parent is unlocked

  function Released(s: State, a: Act): State
    requires Sane(s) && IsNew(s, a) && Up(s.tree, s.acts[a].n).Some?
  {
    ReleaseStep(s, a, Up(s.tree, s.acts[a].n).value)
  }

  ghost predicate MayRelease(s: State, a: Act) {
    && Inv(s) && IsNew(s, a) && s.acts[a].npc.Release? && Up(s.tree, s.acts[a].n).Some?
  }

  lemma ReleaseNode(s: State, a: Act, n: Id)
    requires MayRelease(s, a) && n < |Released(s, a).nodes|
    ensures NodeOk(Released(s, a), n)
  {
    hide Up, Anchor, Inv, LinkOk;
    Use(s, n, a);
    var up := Up(s.tree, n);
    if up.Some? { Use(s, up.value, a); }
  }

  lemma ReleaseLink(s: State, a: Act, n: Id)
    requires MayRelease(s, a) && n < |Released(s, a).nodes|
    ensures LinkOk(Released(s, a), n)
  {
    hide Up, Anchor, Inv;
    Use(s, n, a);
    var up := Up(s.tree, n);
    if up.Some? { Use(s, up.value, a); }
  }

  lemma ReleaseCancel(s: State, a: Act, b: Act)
    requires MayRelease(s, a) && b in Released(s, a).acts && Released(s, a).acts[b].Cancel?
    ensures ActOk(Released(s, a), b)
  {
    hide Up, Anchor, Inv, LinkOk;
    Use(s, s.acts[a].n, a);
    Use(s, s.acts[a].n, b);
  }

  lemma ReleaseNew(s: State, a: Act, b: Act)
    requires MayRelease(s, a) && b in Released(s, a).acts && Released(s, a).acts[b].New?
    ensures ActOk(Released(s, a), b)
  {
    hide Up, Anchor, Inv, LinkOk;
    Use(s, s.acts[a].n, a);
    Use(s, s.acts[a].n, b);
  }

  lemma ReleaseChild(s: State, a: Act, p: Id, m: Id)
    requires MayRelease(s, a) && p < |Released(s, a).nodes|
    ensures ChildOk(Released(s, a), p, m)
  {
    hide Up, Anchor, Inv, LinkOk;
    Use(s, m, a);
    UseChild(s, p, m);
  }

  lemma ReleaseKeeps(s: State, a: Act)
    requires MayRelease(s, a)
    ensures Inv(Released(s, a))
  {
    hide NodeOk, ActOk, LinkOk, ChildOk, Up, Anchor;
    var s2 := Released(s, a);
    forall n | 0 <= n < |s2.nodes| ensures NodeOk(s2, n) && LinkOk(s2, n) {
      ReleaseNode(s, a, n); ReleaseLink(s, a, n);
    }
    forall b | b in s2.acts ensures ActOk(s2, b) {
      if s2.acts[b].Cancel? { ReleaseCancel(s, a, b); } else { ReleaseNew(s, a, b); }
    }
    forall p, m | 0 <= p < |s2.nodes| ensures ChildOk(s2, p, m) { ReleaseChild(s, a, p, m); }
  }

  // ----- the deadline has passed

  ghost predicate MayExpire(s: State, a: Act) {
    && Inv(s) && IsNew(s, a) && s.acts[a].npc.Deadline? && s.tree[s.acts[a].n].kind.TimerCtx?
  }

  lemma ExpireNode(s: State, a: Act, n: Id)
    requires MayExpire(s, a) && n < |ExpireStep(s, a).nodes|
    ensures NodeOk(ExpireStep(s, a), n)
  {
    hide Up, Anchor, Inv, LinkOk;
    Use(s, n, a);
    Use(s, n, s.next);
    var up := Up(s.tree, n);
    if up.Some? { Use(s, up.value, a); }
  }

  lemma ExpireLink(s: State, a: Act, n: Id)
    requires MayExpire(s, a) && n < |ExpireStep(s, a).nodes|
    ensures LinkOk(ExpireStep(s, a), n)
  {
    hide Up, Anchor, Inv;
    Use(s, n, a);
    Use(s, n, s.next);
    var up := Up(s.tree, n);
    if up.Some? { Use(s, up.value, a); }
  }

  lemma ExpireCancel(s: State, a: Act, b: Act)
    requires MayExpire(s, a) && b in ExpireStep(s, a).acts && ExpireStep(s, a).acts[b].Cancel?
    ensures ActOk(ExpireStep(s, a), b)
  {
    hide Up, Anchor, Inv, LinkOk;
    Use(s, s.acts[a].n, a);
    Use(s, s.acts[a].n, b);
    Use(s, s.acts[a].n, s.next);
  }

  lemma ExpireNew(s: State, a: Act, b: Act)
    requires MayExpire(s, a) && b in ExpireStep(s, a).acts && ExpireStep(s, a).acts[b].New?
    ensures ActOk(ExpireStep(s, a), b)
  {
    hide Up, Anchor, Inv, LinkOk;
    Use(s, s.acts[a].n, a);
    Use(s, s.acts[a].n, b);
    Use(s, s.acts[a].n, s.next);
  }

  lemma ExpireChild(s: State, a: Act, p: Id, m: Id)
    requires MayExpire(s, a) && p < |ExpireStep(s, a).nodes|
    ensures ChildOk(ExpireStep(s, a), p, m)
  {
    hide Up, Anchor, Inv, LinkOk;
    Use(s, m, a);
    UseChild(s, p, m);
    Use(s, m, s.next);
  }

  lemma ExpireKeeps(s: State, a: Act)
    requires MayExpire(s, a)
    ensures Inv(ExpireStep(s, a))
  {
    hide NodeOk, ActOk, LinkOk, ChildOk, Up, Anchor;
    var s2 := ExpireStep(s, a);
    forall n | 0 <= n < |s2.nodes| ensures NodeOk(s2, n) && LinkOk(s2, n) { ExpireNode(s, a, n); ExpireLink(s, a, n); }
    forall b | b in s2.acts ensures ActOk(s2, b) {
      if s2.acts[b].Cancel? { ExpireCancel(s, a, b); } else { ExpireNew(s, a, b); }
    }
    forall p, m | 0 <= p < |s2.nodes| ensures ChildOk(s2, p, m) { ExpireChild(s, a, p, m); }
  }

  // ----- a constructor returns

  ghost predicate MayPublish(s: State, a: Act) {
    && Inv(s) && IsNew(s, a) && (s.acts[a].npc.Deadline? || s.acts[a].npc.Publish?)
  }

  lemma PublishNode(s: State, a: Act, n: Id)
    requires MayPublish(s, a) && n < |PublishStep(s, a).nodes|
    ensures NodeOk(PublishStep(s, a), n)
  {
    hide Up, Anchor, Inv, LinkOk;
    Use(s, n, a);
    var up := Up(s.tree, n);
    if up.Some? { Use(s, up.value, a); }
  }

  lemma PublishLink(s: State, a: Act, n: Id)
    requires MayPublish(s, a) && n < |PublishStep(s, a).nodes|
    ensures LinkOk(PublishStep(s, a), n)
  {
    hide Up, Anchor, Inv;
    Use(s, n, a);
    var up := Up(s.tree, n);
    if up.Some? { Use(s, up.value, a); }
  }

  lemma PublishAct(s: State, a: Act, b: Act)
    requires MayPublish(s, a) && b in PublishStep(s, a).acts
    ensures ActOk(PublishStep(s, a), b)
  {
    hide Up, Anchor, Inv, LinkOk;
    Use(s, s.acts[a].n, a);
    Use(s, s.acts[a].n, b);
  }

  lemma PublishChild(s: State, a: Act, p: Id, m: Id)
    requires MayPublish(s, a) && p < |PublishStep(s, a).nodes|
    ensures ChildOk(PublishStep(s, a), p, m)
  {
    hide Up, Anchor, Inv, LinkOk;
    Use(s, m, a);
    UseChild(s, p, m);
  }

  lemma PublishKeeps(s: State, a: Act)
    requires MayPublish(s, a)
    ensures Inv(PublishStep(s, a))
  {
    hide NodeOk, ActOk, LinkOk, ChildOk, Up, Anchor;
    var s2 := PublishStep(s, a);
    forall n | 0 <= n < |s2.nodes| ensures NodeOk(s2, n) && LinkOk(s2, n) {
      PublishNode(s, a, n); PublishLink(s, a, n);
    }
    forall b | b in s2.acts ensures ActOk(s2, b) { PublishAct(s, a, b); }
    forall p, m | 0 <= p < |s2.nodes| ensures ChildOk(s2, p, m) { PublishChild(s, a, p, m); }
  }

  // ----- a context without a lock

  function Derived(s: State, l: Link): State { Grow(s, l, None) }

  ghost predicate MayDerive(s: State, l: Link) {
    Inv(s) && !IsCancel(l.kind)
  }

  lemma DeriveNode(s: State, l: Link, n: Id)
    requires MayDerive(s, l) && n < |Derived(s, l).nodes|
    ensures NodeOk(Derived(s, l), n) && LinkOk(Derived(s, l), n)
  {
    hide Up, Anchor, Inv;
    Use(s, 0, s.next);
    if n < |s.nodes| {
      Use(s, n, s.next);
      UpGrows(s.tree, l, n);
      var up := Up(s.tree, n);
      if up.Some? { Use(s, up.value, s.next); }
      if s.nodes[n].lock.Some? { UpGrows(s.tree, l, s.acts[s.nodes[n].lock.value].n); }
    }
  }

  lemma DeriveAct(s: State, l: Link, b: Act)
    requires MayDerive(s, l) && b in Derived(s, l).acts
    ensures ActOk(Derived(s, l), b)
  {
    hide Up, Anchor, Inv, LinkOk;
    Use(s, 0, s.next);
    if b in s.acts {
      Use(s, s.acts[b].n, b);
      UpGrows(s.tree, l, s.acts[b].n);
    }
  }

  lemma DeriveChild(s: State, l: Link, p: Id, m: Id)
    requires MayDerive(s, l) && p < |Derived(s, l).nodes|
    ensures ChildOk(Derived(s, l), p, m)
  {
    hide Up, Anchor, Inv, LinkOk;
    Use(s, 0, s.next);
    if p < |s.nodes| {
      UseChild(s, p, m);
      if m < |s.nodes| {
        UpGrows(s.tree, l, m);
        Use(s, m, s.next);
      }
    }
  }

  lemma DeriveKeeps(s: State, l: Link)
    requires MayDerive(s, l)
    ensures Inv(Derived(s, l))
  {
    hide NodeOk, ActOk, LinkOk, ChildOk, Up, Anchor;
    var s2 := Derived(s, l);
    forall n | 0 <= n < |s2.nodes| ensures NodeOk(s2, n) && LinkOk(s2, n) { DeriveNode(s, l, n); }
    forall b | b in s2.acts ensures ActOk(s2, b) { DeriveAct(s, l, b); }
    forall p, m | 0 <= p < |s2.nodes| ensures ChildOk(s2, p, m) { DeriveChild(s, l, p, m); }
  }

  // ----- a constructor is called

  function Constructed(s: State, l: Link): State { Spawn(Grow(s, l, Some(s.next)), New(|s.nodes|, AskDone)) }

  ghost predicate MayConstruct(s: State, l: Link) {
    Inv(s) && IsCancel(l.kind)
  }

  lemma ConstructNode(s: State, l: Link, n: Id)
    requires MayConstruct(s, l) && n < |Constructed(s, l).nodes|
    ensures NodeOk(Constructed(s, l), n) && LinkOk(Constructed(s, l), n)
  {
    hide Up, Anchor, Inv;
    Use(s, 0, s.next);
    if n < |s.nodes| {
      Use(s, n, s.next);
      UpGrows(s.tree, l, n);
      var up := Up(s.tree, n);
      if up.Some? { Use(s, up.value, s.next); }
      if s.nodes[n].lock.Some? { UpGrows(s.tree, l, s.acts[s.nodes[n].lock.value].n); }
    }
  }

  lemma ConstructAct(s: State, l: Link, b: Act)
    requires MayConstruct(s, l) && b in Constructed(s, l).acts
    ensures ActOk(Constructed(s, l), b)
  {
    hide Up, Anchor, Inv, LinkOk;
    Use(s, 0, s.next);
    if b in s.acts {
      Use(s, s.acts[b].n, b);
      UpGrows(s.tree, l, s.acts[b].n);
    }
  }

  lemma ConstructChild(s: State, l: Link, p: Id, m: Id)
    requires MayConstruct(s, l) && p < |Constructed(s, l).nodes|
    ensures ChildOk(Constructed(s, l), p, m)
  {
    hide Up, Anchor, Inv, LinkOk;
    Use(s, 0, s.next);
    if p < |s.nodes| {
      UseChild(s, p, m);
      if m < |s.nodes| {
        UpGrows(s.tree, l, m);
        Use(s, m, s.next);
      }
    }
  }

  lemma ConstructKeeps(s: State, l: Link)
    requires MayConstruct(s, l)
    ensures Inv(Constructed(s, l))
  {
    hide NodeOk, ActOk, LinkOk, ChildOk, Up, Anchor;
    var s2 := Constructed(s, l);
    forall n | 0 <= n < |s2.nodes| ensures NodeOk(s2, n) && LinkOk(s2, n) { ConstructNode(s, l, n); }
    forall b | b in s2.acts ensures ActOk(s2, b) { ConstructAct(s, l, b); }
    forall p, m | 0 <= p < |s2.nodes| ensures ChildOk(s2, p, m) { ConstructChild(s, l, p, m); }
  }

  lemma StepKeeps(s: State, t: Step)
    requires Inv(s) && Enabled(s, t)
    ensures Inv(Next(s, t))
  {
    hide Inv, NodeOk, LinkOk, ChildOk, ActOk, Anchor, Up;
    match t
    case Derive(k, p) => DeriveKeeps(s, Link(k, p, None));
    case Construct(k, p, late) => ConstructKeeps(s, Link(k, p, late));
    case Touch(n) =>
      var a := Anchor(s.tree, n);
      if a.Some? { TouchKeeps(s, a.value); }
    case UserCancel(n, u) => UserKeeps(s, t);
    case UserStop(n) => UserKeeps(s, t);
    case FireTimer(n) => UserKeeps(s, t);
    case Advance(a, pick, past) =>
      if s.acts[a].Cancel? { CancelKeeps(s, a, pick); } else { NewKeeps(s, a, past); }
  }

  lemma UserKeeps(s: State, t: Step)
    requires Inv(s) && Enabled(s, t) && (t.UserCancel? || t.UserStop? || t.FireTimer?)
    ensures Inv(Next(s, t))
  {
    hide Inv, LinkOk, ChildOk, ActOk, Anchor, Up, Holds, FromAbove;
    var n := t.n;
    Use(s, n, 0);
    var x := s.nodes[n];
    match t
    case UserCancel(_, u) => DirectKeeps(s, n, !x.timer.Passed?, Why(Canceled, u));
    case UserStop(_) =>
      if x.once.Fresh? {
        RetimeKeeps(s, n, x.timer, Stopped);
        DirectKeeps(Put(s, n, x.(once := Stopped)), n, true, Why(Canceled, None));
      }
    case FireTimer(_) =>
      RetimeKeeps(s, n, Fired, x.once);
      DirectKeeps(Put(s, n, x.(timer := Fired)), n, true, Why(DeadlineExceeded, s.tree[n].late));
  }

  lemma CancelKeeps(s: State, a: Act, pick: Id)
    requires Inv(s) && IsCall(s, a) && CanCancel(s, a, pick)
    ensures Inv(CancelStep(s, a, pick))
  {
    hide Inv, LinkOk, ChildOk, NodeOk, NewOk, Anchor, Up, Holds, FromAbove;
    var c := s.acts[a];
    var x := s.nodes[c.n];
    Use(s, c.n, a);
    match c.pc
    case Enter =>
      if x.why.None? { WinKeeps(s, a); }
      else if s.tree[c.n].kind.CancelCtx? { ReturnKeeps(s, a); }
      else { SlideKeeps(s, a, Remove); }
    case Close => CloseKeeps(s, a);
    case Loop(todo) => if todo == {} { DoneKeeps(s, a); } else { DescendKeeps(s, a, pick); }
    case Remove => RemoveKeeps(s, a);
    case Unlink => UnlinkKeeps(s, a);
    case Finish => FinishKeeps(s, a);
    case Child(_, _, _) =>
  }

  lemma RemoveKeeps(s: State, a: Act)
    requires Inv(s) && IsCall(s, a) && s.acts[a].pc.Remove? && CanCancel(s, a, 0)
    ensures Inv(CancelStep(s, a, 0))
  {
    hide Inv, LinkOk, ChildOk, NewOk, Anchor, Up, Holds, FromAbove;
    var c := s.acts[a];
    Use(s, c.n, a);
    var up := Up(s.tree, c.n);
    if up.Some? { Use(s, up.value, a); }
    if Skips(s, c.rm, up) {
      SlideKeeps(s, a, Finish);
    } else {
      TouchKeeps(s, up.value);
      SlideKeeps(Put(s, up.value, WithDone(s.nodes[up.value])), a, Unlink);
    }
  }

  lemma FinishKeeps(s: State, a: Act)
    requires Inv(s) && IsCall(s, a) && s.acts[a].pc.Finish? && CanCancel(s, a, 0)
    ensures Inv(CancelStep(s, a, 0))
  {
    hide Inv, LinkOk, ChildOk, NewOk, Anchor, Up, Holds, FromAbove;
    var c := s.acts[a];
    Use(s, c.n, a);
    var x := s.nodes[c.n];
    var y := Settled(s.tree[c.n].kind, x);
    RetimeKeeps(s, c.n, y.timer, y.once);
    ReturnKeeps(Put(s, c.n, y), a);
  }

  lemma NewKeeps(s: State, a: Act, past: bool)
    requires Inv(s) && IsNew(s, a) && CanNew(s, a, past)
    ensures Inv(NewStep(s, a, past))
  {
    hide Inv, LinkOk, ChildOk, CancelOk, Anchor, Up, Holds, FromAbove;
    var c := s.acts[a];
    Use(s, c.n, a);
    var up := Up(s.tree, c.n);
    if up.Some? { Use(s, up.value, a); }
    match c.npc
    case AskDone =>
      if up.None? { ForwardKeeps(s, a, Deadline); }
      else {
        TouchKeeps(s, up.value);
        ForwardKeeps(Put(s, up.value, WithDone(s.nodes[up.value])), a, Select);
      }
    case Select => ForwardKeeps(s, a, if DoneClosed(s.nodes[up.value]) then ReadCause else Lookup);
    case ReadCause => CallKeeps(s, a);
    case Lookup => ForwardKeeps(s, a, Enlist);
    case Enlist => if s.nodes[up.value].why.Some? { CallHeldKeeps(s, a); } else { EnlistKeeps(s, a); }
    case Release => ReleaseKeeps(s, a);
    case Deadline => DeadlineKeeps(s, a, past);
    case Publish => PublishKeeps(s, a);
    case _ =>
  }

  lemma DeadlineKeeps(s: State, a: Act, past: bool)
    requires Inv(s) && IsNew(s, a) && s.acts[a].npc.Deadline? && CanNew(s, a, past)
    ensures Inv(NewStep(s, a, past))
  {
    hide Inv, LinkOk, ChildOk, CancelOk, Anchor, Up, Holds, FromAbove;
    var c := s.acts[a];
    var x := s.nodes[c.n];
    Use(s, c.n, a);
    if s.tree[c.n].kind.TimerCtx? && past {
      ExpireKeeps(s, a);
    } else if s.tree[c.n].kind.TimerCtx? && x.why.None? {
      RetimeKeeps(s, c.n, Armed, x.once);
      PublishKeeps(Put(s, c.n, x.(timer := Armed)), a);
    } else {
      PublishKeeps(s, a);
    }
  }
}
