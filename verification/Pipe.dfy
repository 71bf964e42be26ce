/** io/pipe.go: the synchronous pipe as a state machine over any number of concurrent
    calls of Read, Write, Close and CloseWithError.  Every lock section and every
    channel operation is one step; a rendezvous is one step of two calls. */
module Pipe {

  import opened Common

  type Op = nat

  datatype Error = EOF | ClosedPipe | User(code: int)

  datatype ReadPc =
    | RCheck                           // is done closed?
    | Offer                            // select: wrCh or done
    | Ack(nr: nat)                     // copied, about to send on rdCh
    | RErr                             // readCloseError: load rerr
    | RErr2(rerr: Option<Error>)       // ... then werr
    | RDone(n: nat, err: Option<Error>)

  datatype WritePc =
    | WCheck
    | Lock                             // about to lock wrMu
    | Loop(once: bool)                 // the loop condition
    | Select(once: bool)               // wrCh or done
    | Wait(to: Op)                     // sent (to reader `to`); receiving from rdCh
    | WErr(locked: bool)
    | WErr2(locked: bool, werr: Option<Error>)
    | WDone(err: Option<Error>)

  datatype ClosePc = Store | CloseDone | CDone

  /** late: the call began after done was closed. */
  datatype Call =
    | Read(was: seq<Byte>, buf: seq<Byte>, rpc: ReadPc, late: bool)
    | Write(data: seq<Byte>, rest: seq<Byte>, n: nat, wpc: WritePc, late: bool)
    | Close(rd: bool, err: Error, cpc: ClosePc)

  /** One rendezvous on wrCh: what reader r copied from writer w. */
  datatype Chunk = Chunk(w: Op, r: Op, bytes: seq<Byte>)

  /** log and order are history: the rendezvous, and the writers in lock order. */
  datatype State = State(
    mu: Option<Op>, done: bool, rerr: Option<Error>, werr: Option<Error>,
    calls: map<Op, Call>, next: Op, panicked: bool,
    log: seq<Chunk>, order: seq<Op>)

  function Init(): State { State(None, false, None, None, map[], 0, false, [], []) }

  // ----- steps

  datatype Step =
    | BeginRead(b: seq<Byte>)
    | BeginWrite(b: seq<Byte>)
    | BeginClose(rd: bool, why: Option<Error>)
    | Go(o: Op)              // a call moves on by itself
    | Quit(o: Op)            // a select takes the done branch
    | Give(w: Op, r: Op)     // wrCh
    | Take(w: Op, r: Op)     // rdCh

  predicate IsRead(s: State, o: Op) { o in s.calls && s.calls[o].Read? }
  predicate IsWrite(s: State, o: Op) { o in s.calls && s.calls[o].Write? }
  predicate IsClose(s: State, o: Op) { o in s.calls && s.calls[o].Close? }

  predicate ReadGoes(s: State, pc: ReadPc) { pc.RCheck? || pc.RErr? || pc.RErr2? }

  predicate WriteGoes(s: State, pc: WritePc) {
    pc.WCheck? || (pc.Lock? && s.mu.None?) || pc.Loop? || pc.WErr? || pc.WErr2?
  }

  predicate Enabled(s: State, t: Step) {
    match t
    case BeginRead(_) => true
    case BeginWrite(_) => true
    case BeginClose(_, _) => true
    case Go(o) =>
      || (IsRead(s, o) && ReadGoes(s, s.calls[o].rpc))
      || (IsWrite(s, o) && WriteGoes(s, s.calls[o].wpc))
      || (IsClose(s, o) && !s.calls[o].cpc.CDone?)
    case Quit(o) =>
      s.done && ((IsRead(s, o) && s.calls[o].rpc.Offer?) || (IsWrite(s, o) && s.calls[o].wpc.Select?))
    case Give(w, r) => IsWrite(s, w) && s.calls[w].wpc.Select? && IsRead(s, r) && s.calls[r].rpc.Offer?
    case Take(w, r) => IsWrite(s, w) && s.calls[w].wpc.Wait? && IsRead(s, r) && s.calls[r].rpc.Ack?
  }

  function Put(s: State, o: Op, c: Call): State { s.(calls := s.calls[o := c]) }

  function Begin(s: State, c: Call): State { Put(s, s.next, c).(next := s.next + 1) }

  function Next(s: State, t: Step): State
    requires Enabled(s, t)
  {
    match t
    case BeginRead(b) => Begin(s, Read(b, b, RCheck, s.done))
    case BeginWrite(b) => Begin(s, Write(b, b, 0, WCheck, s.done))
    case BeginClose(rd, why) =>
      Begin(s, Close(rd, if why.Some? then why.value else if rd then ClosedPipe else EOF, Store))
    case Go(o) =>
      if s.calls[o].Read? then ReadStep(s, o) else if s.calls[o].Write? then WriteStep(s, o) else CloseStep(s, o)
    case Quit(o) =>
      if s.calls[o].Read? then Put(s, o, s.calls[o].(rpc := RErr)) else Put(s, o, s.calls[o].(wpc := WErr(true)))
    case Give(w, r) => GiveStep(s, w, r)
    case Take(w, r) => TakeStep(s, w, r)
  }

  /** readCloseError, once both errors are loaded; writeCloseError swaps the roles. */
  function CloseError(own: Option<Error>, other: Option<Error>): Error {
    if own.None? && other.Some? then other.value else ClosedPipe
  }

  function ReadStep(s: State, o: Op): State
    requires IsRead(s, o)
  {
    var c := s.calls[o];
    match c.rpc
    case RCheck => Put(s, o, c.(rpc := if s.done then RErr else Offer))
    case RErr => Put(s, o, c.(rpc := RErr2(s.rerr)))
    case RErr2(rerr) => Put(s, o, c.(rpc := RDone(0, Some(CloseError(rerr, s.werr)))))
    case _ => s
  }

  function WriteStep(s: State, o: Op): State
    requires IsWrite(s, o)
  {
    var c := s.calls[o];
    match c.wpc
    case WCheck => Put(s, o, c.(wpc := if s.done then WErr(false) else Lock))
    case Lock => Put(s, o, c.(wpc := Loop(true))).(mu := Some(o), order := s.order + [o])
    case Loop(once) =>
      if once || |c.rest| > 0 then Put(s, o, c.(wpc := Select(once)))
      else Put(s, o, c.(wpc := WDone(None))).(mu := None)
    case WErr(locked) => Put(s, o, c.(wpc := WErr2(locked, s.werr)))
    case WErr2(locked, werr) =>
      Put(s, o, c.(wpc := WDone(Some(CloseError(werr, s.rerr))))).(mu := if locked then None else s.mu)
    case _ => s
  }

  function CloseStep(s: State, o: Op): State
    requires IsClose(s, o)
  {
    var c := s.calls[o];
    match c.cpc
    case Store =>
      if c.rd then Put(s, o, c.(cpc := CloseDone)).(rerr := if s.rerr.None? then Some(c.err) else s.rerr)
      else Put(s, o, c.(cpc := CloseDone)).(werr := if s.werr.None? then Some(c.err) else s.werr)
    case CloseDone => Put(s, o, c.(cpc := CDone)).(done := true)
    case CDone => s
  }

  /** The reader receives the writer's slice and copies what fits. */
  function GiveStep(s: State, w: Op, r: Op): State
    requires IsWrite(s, w) && IsRead(s, r)
  {
    var c := s.calls[w];
    var d := s.calls[r];
    var nr := Min(|d.buf|, |c.rest|);
    Put(Put(s, w, c.(wpc := Wait(r))), r, d.(buf := c.rest[..nr] + d.buf[nr..], rpc := Ack(nr)))
    .(log := s.log + [Chunk(w, r, c.rest[..nr])])
  }

  /** The writer receives the count; slicing past the end would panic. */
  function TakeStep(s: State, w: Op, r: Op): State
    requires IsWrite(s, w) && IsRead(s, r) && s.calls[r].rpc.Ack?
  {
    var c := s.calls[w];
    var nr := s.calls[r].rpc.nr;
    if nr > |c.rest| then s.(panicked := true)
    else
      Put(Put(s, w, c.(rest := c.rest[nr..], n := c.n + nr, wpc := Loop(false))),
          r, s.calls[r].(rpc := RDone(nr, None)))
  }

  // ----- what the log says

  /** The bytes delivered from writer w. */
  function Sent(log: seq<Chunk>, w: Op): seq<Byte> {
    if log == [] then []
    else Sent(log[..|log| - 1], w) + if log[|log| - 1].w == w then log[|log| - 1].bytes else []
  }

  function Sends(log: seq<Chunk>, w: Op): nat {
    if log == [] then 0
    else Sends(log[..|log| - 1], w) + if log[|log| - 1].w == w then 1 else 0
  }

  /** The chunks delivered to reader r. */
  function Got(log: seq<Chunk>, r: Op): seq<seq<Byte>> {
    if log == [] then []
    else Got(log[..|log| - 1], r) + if log[|log| - 1].r == r then [log[|log| - 1].bytes] else []
  }

  /** All bytes delivered, in rendezvous order. */
  function All(log: seq<Chunk>): seq<Byte> {
    if log == [] then [] else All(log[..|log| - 1]) + log[|log| - 1].bytes
  }

  /** The bytes of each writer, in lock order. */
  function Flat(log: seq<Chunk>, order: seq<Op>): seq<Byte> {
    if order == [] then [] else Flat(log, order[..|order| - 1]) + Sent(log, order[|order| - 1])
  }

  // ----- the invariant

  ghost predicate ReadOk(s: State, o: Op)
    requires IsRead(s, o)
  {
    var c := s.calls[o];
    && (c.late ==> s.done)
    && match c.rpc
       case RCheck => c.buf == c.was && Got(s.log, o) == []
       case Offer => !c.late && c.buf == c.was && Got(s.log, o) == []
       case Ack(nr) =>
         && !c.late && Copied(s, o, nr)
         && s.mu.Some? && IsWrite(s, s.mu.value) && s.calls[s.mu.value].wpc == Wait(o)
       case RErr => s.done && c.buf == c.was && Got(s.log, o) == []
       case RErr2(rerr) => c.buf == c.was && Got(s.log, o) == [] && if rerr.Some? then s.rerr.Some? else s.werr.Some?
       case RDone(n, err) =>
         if err.None? then !c.late && Copied(s, o, n)
         else n == 0 && c.buf == c.was && Got(s.log, o) == [] && Explained(err.value, s.rerr, s.werr)
  }

  /** The first nr bytes of the buffer are the one chunk delivered; the rest is as before. */
  ghost predicate Copied(s: State, o: Op, nr: nat)
    requires IsRead(s, o)
  {
    var c := s.calls[o];
    nr <= |c.was| == |c.buf| && c.buf[nr..] == c.was[nr..] && Got(s.log, o) == [c.buf[..nr]]
  }

  /** An error is the other end's first error, or ErrClosedPipe because this end was closed. */
  ghost predicate Explained(e: Error, own: Option<Error>, other: Option<Error>) {
    other == Some(e) || (own.Some? && e == ClosedPipe)
  }

  predicate Locked(pc: WritePc) {
    pc.Loop? || pc.Select? || pc.Wait? || (pc.WErr? && pc.locked) || (pc.WErr2? && pc.locked)
  }

  ghost predicate WriteOk(s: State, o: Op)
    requires IsWrite(s, o)
  {
    var c := s.calls[o];
    && (c.late ==> s.done)
    && c.n <= |c.data| && c.rest == c.data[c.n..]
    && (Locked(c.wpc) <==> s.mu == Some(o))
    && (o !in s.order ==> c.n == 0 && Sent(s.log, o) == [] && Sends(s.log, o) == 0)
    && (c.late ==> o !in s.order)
    && (!c.wpc.Wait? ==> Sent(s.log, o) == c.data[..c.n])
    && (Sends(s.log, o) == 0 ==> Sent(s.log, o) == [])
    && match c.wpc
       case WCheck => o !in s.order
       case Lock => !c.late && o !in s.order
       case Loop(once) => Turn(s, o, once)
       case Select(once) => Turn(s, o, once) && (once || |c.rest| > 0)
       case Wait(r) =>
         && IsRead(s, r) && s.calls[r].rpc.Ack? && s.calls[r].rpc.nr <= |c.rest|
         && s.calls[r].rpc.nr <= |s.calls[r].buf|
         && s.calls[r].buf[..s.calls[r].rpc.nr] == c.rest[..s.calls[r].rpc.nr]
         && Sent(s.log, o) == c.data[..c.n + s.calls[r].rpc.nr]
         && Sends(s.log, o) > 0 && (c.data == [] ==> Sends(s.log, o) == 1)
       case WErr(locked) => s.done && (!locked ==> o !in s.order)
       case WErr2(locked, werr) => (if werr.Some? then s.werr.Some? else s.rerr.Some?) && (!locked ==> o !in s.order)
       case WDone(err) =>
         if err.None? then c.n == |c.data| && Sends(s.log, o) > 0 && (c.data == [] ==> Sends(s.log, o) == 1)
         else Explained(err.value, s.werr, s.rerr)
  }

  ghost predicate Turn(s: State, o: Op, once: bool)
    requires IsWrite(s, o)
  {
    var k := Sends(s.log, o);
    if once then k == 0 && s.calls[o].n == 0 else k > 0 && (s.calls[o].data == [] ==> k == 1)
  }

  ghost predicate CallOk(s: State, o: Op)
    requires o in s.calls
  {
    && o < s.next
    && match s.calls[o]
       case Read(_, _, _, _) => ReadOk(s, o)
       case Write(_, _, _, _, _) => WriteOk(s, o)
       case Close(rd, _, pc) => (pc.Store? || if rd then s.rerr.Some? else s.werr.Some?) && (pc.CDone? ==> s.done)
  }

  /** The lock holder is the last writer in order. */
  ghost predicate MuOk(s: State) {
    s.mu.Some? ==> |s.order| > 0 && s.order[|s.order| - 1] == s.mu.value && IsWrite(s, s.mu.value)
  }

  ghost predicate OrderOk(s: State) {
    && (forall i :: 0 <= i < |s.order| ==> IsWrite(s, s.order[i]))
    && (forall i, j :: 0 <= i < j < |s.order| ==> s.order[i] != s.order[j])
    && (forall i :: 0 <= i < |s.log| ==> s.log[i].w in s.order)
  }

  ghost predicate LogOk(s: State) {
    && (forall i :: 0 <= i < |s.log| ==> s.log[i].r < s.next && s.log[i].w < s.next)
    && All(s.log) == Flat(s.log, s.order)
  }

  ghost predicate Inv(s: State) {
    && !s.panicked
    && (s.done ==> s.rerr.Some? || s.werr.Some?)
    && (forall o :: o in s.calls ==> CallOk(s, o))
    && MuOk(s) && OrderOk(s) && LogOk(s)
  }
}
