/** iter/iter.go: Pull turns a function that pushes values into one that hands them out.
    The function is a coroutine: what it does next depends on the answers yield has
    given it so far. */
module Iter {

  import opened Common

  /** What seq does next: yield a value, return, panic, or call runtime.Goexit. */
  datatype Act<V> = Yield(v: V) | Return | Panic(p: int) | Goexit

  /** What a call of next or stop does; stop returns no value. */
  datatype Out<V> = Value(v: V, ok: bool) | Stopped | Panicked(p: int) | Exited

  type Body<!V> = seq<bool> -> Act<V>

  // ----- what the calls mean

  function Trues(k: nat): (h: seq<bool>)
    ensures |h| == k
  {
    seq(k, _ => true)
  }

  /** How seq ends once yield answers false: it may go on yielding, to no avail. */
  function Ending<V>(body: Body<V>, h: seq<bool>, fuel: nat): Act<V>
    decreases fuel
  {
    if body(h).Yield? && fuel > 0 then Ending(body, h + [false], fuel - 1) else body(h)
  }

  /** Active(k): k values have been handed out, and seq waits for its k-th answer. */
  datatype Phase = Active(k: nat) | Over

  datatype Call = Next | Stop

  /** fuel(k) bounds how often seq yields in vain once its k-th answer from yield, and
      every later one, is false. */
  datatype Machine<!V> = Machine(body: Body<V>, zero: V, fuel: nat -> nat)

  /** How seq ends when yield answers true k times and then false. */
  function Unwound<V>(m: Machine<V>, k: nat): Act<V> { Ending(m.body, Trues(k) + [false], m.fuel(k)) }

  function Ended<V>(a: Act<V>, quiet: Out<V>): Out<V> {
    match a
    case Panic(p) => Panicked(p)
    case Goexit => Exited
    case _ => quiet
  }

  function Result<V>(m: Machine<V>, s: Phase, c: Call): Out<V> {
    match c
    case Next =>
      if s.Over? then Value(m.zero, false)
      else var a := m.body(Trues(s.k)); if a.Yield? then Value(a.v, true) else Ended(a, Value(m.zero, false))
    case Stop =>
      if s.Over? || s.k == 0 then Stopped
      else Ended(Unwound(m, s.k - 1), Stopped)
  }

  function After<V>(m: Machine<V>, s: Phase, c: Call): Phase {
    if c.Next? && s.Active? && m.body(Trues(s.k)).Yield? then Active(s.k + 1) else Over
  }

  /** seq stops yielding some time after yield has answered false. */
  ghost predicate Obedient<V>(m: Machine<V>) {
    forall k: nat :: !Unwound(m, k).Yield?
  }

  // ----- Pull

  class Pull<V> {
    const m: Machine<V>
    var v: V
    var ok: bool
    var done: bool
    var yieldNext: bool
    var seqDone: bool
    var panicValue: Option<Act<V>>     // Panic or Goexit
    var answers: seq<bool>             // what yield has answered; the coroutine's place in seq
    var started: bool
    ghost var phase: Phase
    ghost var resumed: nat             // how often seq has run

    ghost predicate Valid()
      reads this
    {
      && Obedient(m)
      && (done <==> phase.Over?)
      && (phase.Active? ==> !yieldNext && panicValue.None? && answers == Trues(if phase.k == 0 then 0 else phase.k - 1))
      && (phase.Active? ==> (started <==> phase.k > 0))
    }

    constructor (m: Machine<V>)
      requires Obedient(m)
      ensures Valid() && this.m == m && phase == Active(0) && resumed == 0
    {
      this.m, v, ok := m, m.zero, false;
      done, yieldNext, seqDone, panicValue := false, false, false, None;
      answers, started, phase, resumed := [], false, Active(0), 0;
    }

    /** yield answers false at once while done, until seq ends. */
    method Unwind(a0: Act<V>, ghost bound: nat) returns (a: Act<V>)
      requires a0 == m.body(answers) && !Ending(m.body, answers, bound).Yield?
      modifies this`answers
      ensures a == Ending(m.body, old(answers), bound)
    {
      a := a0;
      ghost var fuel := bound;
      while a.Yield?
        invariant a == m.body(answers) && Ending(m.body, answers, fuel) == Ending(m.body, old(answers), bound)
        decreases fuel
      {
        assert fuel > 0;
        answers := answers + [false];
        a := m.body(answers);
        fuel := fuel - 1;
      }
    }

    /** The last lines of the coroutine: seq has returned, panicked or exited. */
    method Finish(a: Act<V>)
      requires !a.Yield? && panicValue.None?
      modifies this`v, this`ok, this`seqDone, this`panicValue, this`done
      ensures done && panicValue == Failure(a) && (a.Return? ==> v == m.zero && !ok)
    {
      if a.Return? {
        v, ok, seqDone := m.zero, false, true;
      } else {
        panicValue := Some(a);
      }
      done := true;
    }

    /** coroswitch to a seq that next wants a value from: it runs until it yields or ends. */
    method SwitchForNext()
      requires Obedient(m) && phase.Active? && panicValue.None? && !done && yieldNext
      requires answers == Trues(if phase.k == 0 then 0 else phase.k - 1) && (started <==> phase.k > 0)
      modifies this
      ensures phase == old(phase) && resumed == old(resumed) + 1
      ensures Resumed(m.body(Trues(phase.k))) && (!done ==> answers == Trues(phase.k))
    {
      if started {
        answers := answers + [true];         // return !pull.done
      }
      started := true;
      resumed := resumed + 1;
      assert answers == Trues(phase.k);
      var a := m.body(answers);
      if a.Yield? {
        yieldNext := false;
        v, ok := a.v, true;
      } else {
        Finish(a);
      }
    }

    /** coroswitch to a seq that is to stop: entered for the first time it does not run. */
    method SwitchForStop()
      requires Obedient(m) && phase.Active? && panicValue.None? && done
      requires answers == Trues(if phase.k == 0 then 0 else phase.k - 1) && (started <==> phase.k > 0)
      modifies this
      ensures phase == old(phase) && done && resumed == old(resumed) + if phase.k == 0 then 0 else 1
      ensures panicValue == if phase.k == 0 then None else Failure(Unwound(m, phase.k - 1))
    {
      if !started {
        started := true;
        return;
      }
      answers := answers + [false];
      resumed := resumed + 1;
      assert !Unwound(m, phase.k - 1).Yield?;
      var a := Unwind(m.body(answers), m.fuel(phase.k - 1));
      Finish(a);
    }

    ghost predicate Resumed(a: Act<V>)
      reads this
    {
      if a.Yield? then !done && !yieldNext && v == a.v && ok && panicValue.None? && started
      else done && panicValue == Failure(a) && (a.Return? ==> v == m.zero && !ok)
    }

    method CallNext() returns (out: Out<V>)
      requires Valid()
      modifies this
      ensures Valid() && out == Result(m, old(phase), Next) && phase == After(m, old(phase), Next)
      ensures resumed == old(resumed) + if old(phase).Active? then 1 else 0
    {
      if done { return Value(m.zero, false); }
      yieldNext := true;
      SwitchForNext();
      phase := After(m, phase, Next);
      if panicValue.Some? {
        return if panicValue.value.Goexit? then Exited else Panicked(panicValue.value.p);
      }
      return Value(v, ok);
    }

    method CallStop() returns (out: Out<V>)
      requires Valid()
      modifies this
      ensures Valid() && out == Result(m, old(phase), Stop) && phase == After(m, old(phase), Stop) == Over
      ensures resumed == old(resumed) + if old(phase).Active? && old(phase).k > 0 then 1 else 0
    {
      if !done {
        done := true;
        SwitchForStop();
        phase := Over;
        if panicValue.Some? {
          return if panicValue.value.Goexit? then Exited else Panicked(panicValue.value.p);
        }
      }
      return Stopped;
    }
  }

  function Failure<V>(a: Act<V>): Option<Act<V>> { if a.Panic? || a.Goexit? then Some(a) else None }

  // ----- whole runs

  function Outs<V>(m: Machine<V>, s: Phase, calls: seq<Call>): (r: seq<Out<V>>)
    ensures |r| == |calls|
    decreases |calls|
  {
    if calls == [] then [] else [Result(m, s, calls[0])] + Outs(m, After(m, s, calls[0]), calls[1..])
  }

  /** Any calls on a new Pull: what they return is Outs. */
  method Drive<V>(m: Machine<V>, calls: seq<Call>) returns (outs: seq<Out<V>>)
    requires Obedient(m)
    ensures outs == Outs(m, Active(0), calls)
  {
    var pull := new Pull(m);
    outs := [];
    var i: nat := 0;
    while i < |calls|
      invariant i <= |calls| && pull.Valid() && pull.m == m && fresh(pull)
      invariant outs + Outs(m, pull.phase, calls[i..]) == Outs(m, Active(0), calls)
    {
      ghost var s := pull.phase;
      var out: Out<V>;
      if calls[i].Next? { out := pull.CallNext(); } else { out := pull.CallStop(); }
      assert calls[i..][1..] == calls[i + 1..];
      assert Outs(m, s, calls[i..]) == [out] + Outs(m, pull.phase, calls[i + 1..]);
      Cat(outs, [out], Outs(m, pull.phase, calls[i + 1..]));
      outs := outs + [out];
      i := i + 1;
    }
  }

  /** The n-th call of next returns the n-th value of seq, as long as seq yields. */
  lemma {:induction false} NthNext<V>(m: Machine<V>, k: nat, calls: seq<Call>, n: nat)
    requires n < |calls| && forall i :: 0 <= i <= n ==> calls[i].Next?
    requires forall i :: k <= i <= k + n ==> m.body(Trues(i)).Yield?
    ensures Outs(m, Active(k), calls)[n] == Value(m.body(Trues(k + n)).v, true)
    decreases n
  {
    if n > 0 { NthNext(m, k + 1, calls[1..], n - 1); }
  }

  /** Once over, over for good: next returns zero and false, stop nothing. */
  lemma {:induction false} OverForever<V>(m: Machine<V>, calls: seq<Call>, n: nat)
    requires n < |calls|
    ensures Outs(m, Over, calls)[n] == if calls[n].Next? then Value(m.zero, false) else Stopped
    decreases n
  {
    if n > 0 { OverForever(m, calls[1..], n - 1); }
  }

  /** A call that returns no value is the last to be anything but quiet: in every run, at
      most one call panics or exits, and none after a stop or the end of seq. */
  lemma {:induction false} OnlyOnce<V>(m: Machine<V>, s: Phase, calls: seq<Call>, i: nat, j: nat)
    requires i < j < |calls| && !(Outs(m, s, calls)[i].Value? && Outs(m, s, calls)[i].ok)
    ensures Outs(m, s, calls)[j] == if calls[j].Next? then Value(m.zero, false) else Stopped
    decreases i
  {
    if i == 0 {
      OverForever(m, calls[1..], j - 1);
    } else {
      OnlyOnce(m, After(m, s, calls[0]), calls[1..], i - 1, j - 1);
    }
  }

  /** The call during which seq panics with p, after k values. */
  predicate PanicsIn<V>(m: Machine<V>, k: nat, c: Call, p: int) {
    if c.Next? then m.body(Trues(k)) == Panic(p) else k > 0 && Unwound(m, k - 1) == Panic(p)
  }

  /** Call i finds seq, after k + i values, about to yield another. */
  predicate YieldsTo<V>(m: Machine<V>, k: nat, calls: seq<Call>, i: nat) {
    i < |calls| && calls[i].Next? && m.body(Trues(k + i)).Yield?
  }

  predicate AllYield<V>(m: Machine<V>, k: nat, calls: seq<Call>, n: nat) {
    forall i: nat :: i < n ==> YieldsTo(m, k, calls, i)
  }

  /** In every run, a panic is raised by exactly the call during which seq panics, with the
      same value: every call before it was a next that seq yielded to. */
  lemma {:induction false} PanicsHere<V>(m: Machine<V>, k: nat, calls: seq<Call>, n: nat, p: int)
    requires n < |calls|
    ensures Outs(m, Active(k), calls)[n] == Panicked(p) <==> AllYield(m, k, calls, n) && PanicsIn(m, k + n, calls[n], p)
    decreases n
  {
    if n > 0 {
      FirstYields(m, k, calls, n);
      if YieldsTo(m, k, calls, 0) {
        hide AllYield, PanicsIn;
        PanicsHere(m, k + 1, calls[1..], n - 1, p);
      } else {
        OverForever(m, calls[1..], n - 1);
      }
    }
  }

  lemma YieldsLater<V>(m: Machine<V>, k: nat, calls: seq<Call>, rest: seq<Call>, i: nat)
    requires calls != [] && rest == calls[1..]
    ensures YieldsTo(m, k + 1, rest, i) <==> YieldsTo(m, k, calls, i + 1)
  {
    assert k + 1 + i == k + (i + 1);
  }

  lemma FirstYields<V>(m: Machine<V>, k: nat, calls: seq<Call>, n: nat)
    requires 0 < n <= |calls|
    ensures AllYield(m, k, calls, n) <==> YieldsTo(m, k, calls, 0) && AllYield(m, k + 1, calls[1..], n - 1)
  {
    hide YieldsTo;
    var rest, k1 := calls[1..], k + 1;
    if AllYield(m, k, calls, n) {
      forall i: nat | i < n - 1 ensures YieldsTo(m, k1, rest, i) { YieldsLater(m, k, calls, rest, i); }
    }
    if YieldsTo(m, k, calls, 0) && AllYield(m, k1, rest, n - 1) {
      forall i: nat | i < n ensures YieldsTo(m, k, calls, i) {
        if i > 0 { YieldsLater(m, k, calls, rest, i - 1); }
      }
    }
  }

  // ----- every answer of every run

  function Falses(k: nat): (h: seq<bool>)
    ensures |h| == k
  {
    seq(k, _ => false)
  }

  /** Told to stop after k answers of true, seq yields in vain until its r-th answer of false. */
  ghost predicate EndsAt<V>(m: Machine<V>, k: nat, r: nat) {
    && r > 0 && !m.body(Trues(k) + Falses(r)).Yield?
    && forall q: nat :: 0 < q < r ==> m.body(Trues(k) + Falses(q)).Yield?
  }

  lemma {:induction false} EndingIs<V>(m: Machine<V>, k: nat, q: nat, fuel: nat) returns (r: nat)
    requires q > 0 && !Ending(m.body, Trues(k) + Falses(q), fuel).Yield?
    requires forall i: nat :: 0 < i < q ==> m.body(Trues(k) + Falses(i)).Yield?
    ensures EndsAt(m, k, r) && Ending(m.body, Trues(k) + Falses(q), fuel) == m.body(Trues(k) + Falses(r))
    decreases fuel
  {
    var h := Trues(k) + Falses(q);
    if m.body(h).Yield? && fuel > 0 {
      assert h + [false] == Trues(k) + Falses(q + 1);
      r := EndingIs(m, k, q + 1, fuel - 1);
    } else {
      r := q;
    }
  }

  lemma UnwoundIs<V>(m: Machine<V>, k: nat) returns (r: nat)
    requires Obedient(m)
    ensures EndsAt(m, k, r) && Unwound(m, k) == m.body(Trues(k) + Falses(r))
  {
    assert !Unwound(m, k).Yield?;
    assert Trues(k) + [false] == Trues(k) + Falses(1);
    r := EndingIs(m, k, 1, m.fuel(k));
  }

  /** The answer of next that meets action a of seq. */
  ghost predicate NextSays<V>(m: Machine<V>, a: Act<V>, out: Out<V>) {
    match a
    case Yield(v) => out == Value(v, true)
    case Return => out == Value(m.zero, false)
    case Panic(p) => out == Panicked(p)
    case Goexit => out == Exited
  }

  /** The answer of a stop after k values: nothing is asked of seq before its first. */
  ghost predicate StopSays<V>(m: Machine<V>, k: nat, out: Out<V>) {
    if k == 0 then out == Stopped
    else
      exists r: nat :: EndsAt(m, k - 1, r) &&
        match m.body(Trues(k - 1) + Falses(r))
        case Return => out == Stopped
        case Panic(p) => out == Panicked(p)
        case Goexit => out == Exited
        case Yield(_) => false
  }

  ghost predicate Says<V>(m: Machine<V>, k: nat, c: Call, out: Out<V>) {
    if c.Next? then NextSays(m, m.body(Trues(k)), out) else StopSays(m, k, out)
  }

  /** The answer of a call after the end. */
  ghost predicate Quiet<V>(m: Machine<V>, c: Call, out: Out<V>) {
    out == if c.Next? then Value(m.zero, false) else Stopped
  }

  lemma FirstSays<V>(m: Machine<V>, k: nat, calls: seq<Call>)
    requires Obedient(m) && calls != []
    ensures Says(m, k, calls[0], Outs(m, Active(k), calls)[0])
  {
    if calls[0].Stop? && k > 0 {
      var r := UnwoundIs(m, k - 1);
    }
  }

  /** Call n of every run: if every call before it was a next that got a value, it answers
      what seq does next; otherwise all is over. */
  lemma {:induction false} EveryAnswer<V>(m: Machine<V>, k: nat, calls: seq<Call>, n: nat)
    requires Obedient(m) && n < |calls|
    ensures var out := Outs(m, Active(k), calls)[n];
            if AllYield(m, k, calls, n) then Says(m, k + n, calls[n], out) else Quiet(m, calls[n], out)
    decreases n
  {
    if n == 0 {
      FirstSays(m, k, calls);
    } else {
      FirstYields(m, k, calls, n);
      if YieldsTo(m, k, calls, 0) {
        hide AllYield, Says;
        EveryAnswer(m, k + 1, calls[1..], n - 1);
      } else {
        OverForever(m, calls[1..], n - 1);
      }
    }
  }

  /** A call returns v and true if and only if it is a next to which seq yields v. */
  lemma ValueHere<V>(m: Machine<V>, k: nat, calls: seq<Call>, n: nat, v: V)
    requires Obedient(m) && n < |calls|
    ensures Outs(m, Active(k), calls)[n] == Value(v, true) <==>
      AllYield(m, k, calls, n) && calls[n].Next? && m.body(Trues(k + n)) == Yield(v)
  {
    hide AllYield, Outs, EndsAt;
    EveryAnswer(m, k, calls, n);
  }
}
