# Verified models of Go standard library algorithms

This project models sixteen pieces of a Go 1.26 source tree whose correctness is not
visible from any one function body, and proves the properties their documentation and
design promise. `dafny verify dfyconfig.toml` checks everything.

## What is modelled

**Floating point on bit patterns** (`math`). A float64 is a 64-bit word (`Bits`), read as
a dyadic rational (`Float64`). `Float64.RoundedTo` says what correct rounding is (section
4.3.1 of IEEE 754-2008: nearest, ties to an even significand, exponent bounded from below,
overflow to infinity) by comparing a result with every other 53-bit significand;
`RoundedOnce` shows that it determines the pattern. `WidePair` and `Fma` follow `FMA`
through its 128-bit shifts, sticky bits and single rounding; `Rounding` holds the integer
facts they rest on; `Sqrt`, `Floor` and `Mod` follow `sqrt`, `trunc`, `Round`,
`RoundToEven`, `mod`, and the `Frexp`, `Ldexp` and `normalize` that `mod` calls.

**Concurrent protocols as step relations.** Every lock section, atomic operation and
channel operation is one step, and any number of calls are in progress at once.
- `Context`, `ContextSteps`, `ContextRuns`, `ContextProgress`, `ContextEffects`: the
  cancellation tree, with per-node locks, done channels made on demand, registration racing
  with cancellation, timers and AfterFunc.
- `Pipe`, `PipeSteps`, `PipeRuns`, `PipeErrors`: the synchronous pipe, with any number of
  readers, writers and closers. The source declares `once` as a `sync.Mutex` (io/pipe.go:43) but
  calls `once.Do` (lines 71 and 102); it is modelled as a `sync.Once`.
- `Dial`: the race of `dialParallel` (section 4 of RFC 6555), and `dialSerial` with the
  division of its deadline. A stopped timer that had expired may report either answer.
- `Iter`: `Pull`, whose `seq` is a coroutine given by what it does after each list of
  answers from `yield`. The panic for a `next` called from inside `seq` cannot arise
  from the calls modelled, and is left out.

**Printers and parsers that undo each other** (`Grammar`, `MediaType`,
`MediaTypeRoundTrip`, `MediaTypeParts`, `MediaTypeRepeats`, `MediaTypeLaws`, `EncodedWord`,
`EncodedWordRoundTrip`, `EncodedWordHeaders`, `Html`, `HtmlStandard`). Texts are byte strings.
Functions of package strings that look at Unicode tables are parameters with a contract
for ASCII text.

**Buffers and searches that agree with a simple view** (`Buffers`, `BufferLaws`, `Bufio`,
`Scan`, `LineLaws`, `Utf8`, `IndexBytes`, `AddrSelect`, `AddrRanges`). `Sources.Source` is
an io.Reader that cuts its input into chunks as it likes, returns data and error together
or apart, and returns empty reads up to a given number of times in a row.

## Where the code and its documentation differ

The models follow the code; these lemmas show the difference.
- `Buffer.UnreadByte` is documented to fail unless the last operation was a read that
  returned a byte and no error (bytes/buffer.go:407-409). After `ReadBytes` or `ReadString` met
  the end of the data it succeeds, even when nothing was read (`UnreadAfterEmptyRead`);
  `UnreadByteLaw` says for every operation whether it fails. After a `Grow` that moved the
  data it reports success and takes nothing back (`UnreadAfterGrow`). `UnreadByteEffect`
  says exactly when a byte returns.
- Numeric character references (html/escape.go:68-120) are decoded as section 13.2.5 of
  the WHATWG HTML standard has it, except exactly in three families (`NumericIsStandard`):
  one decimal digit without a semicolon is left as text (`LoneDigitExample`); `&#x;` and
  `&#X;` become U+FFFD (`NoHexDigitsExample`); a number past U+10FFFF that int32 arithmetic
  wraps to a character becomes that character, so that `&#4294967356;` becomes `<`
  (`OverflowExample`).
- Named character references are decoded as the standard has it, except exactly `&nLt;` and
  `&nGt;` (`NamedIsStandard`): the table leaves these names out (html/entity.go:2164-2166)
  because they stand for more bytes than they have, and they stay text (`WideExample`).
- `FormatMediaType` accepts parameter names with upper-case letters or `*` that
  `ParseMediaType` cannot give back; `RoundTripIff` says that exactly the other names survive.
- A final line without `\n` keeps its `\r` in `Reader.ReadLine` and loses it in `Scanner`
  with `ScanLines` (`TokensAreLines`).
- `commonPrefixLen` is documented to compare an IPv4 address written as IPv6 by its IPv4
  bytes, and to give 0 for different IP versions (net/addrselect.go:330-332), but only its
  second argument is converted. With such a first argument it gives 64 for `::ffff:1.2.3.4`
  and `::1` (`MixedVersions`) and 0 for `::ffff:1.2.3.4` and `1.2.3.4` (`SameAddress`);
  `AsDocumented` says exactly when it does as documented. `compareByRFC6724` asks when a
  source is so written and both destinations are IPv6; `TotalPreorder` covers that case.

## Model

| member | source | states |
|---|---|---|
| Fma.FMA | go1.26/src/math/fma.go:93-180 | for all finite non-zero operands, normal or subnormal, the result is the exact x*y+z rounded once to nearest even, with overflow, subnormal results and +0 for exact cancellation |
| Float64.RoundedOnce | go1.26/src/math/fma.go:167-179 | a real number has only one correctly rounded pattern, so FMA's contract fixes every bit of its result |
| Float64.RoundedIsNearest | go1.26/src/math/fma.go:167-179 | a finite rounded result is as close as every other float64, and even on a tie |
| Fma.SplitValue | go1.26/src/math/fma.go:74-89 | sign, exponent and 53-bit significand of split are those of the number, subnormals normalised |
| Fma.ProductStage | go1.26/src/math/fma.go:115-133 | the 128-bit product, normalised, is the exact product of the operands |
| Fma.AddStage | go1.26/src/math/fma.go:145-155 | with equal signs, the aligned sum is the exact sum with its low bits collected into the sticky bit |
| Fma.SubStage | go1.26/src/math/fma.go:156-165 | with opposite signs, the normalised difference is the exact difference with a sticky bit that still rounds correctly |
| Fma.PackRounds | go1.26/src/math/fma.go:167-179 | one rounding of the sticky significand, at the subnormal position when needed, is the rounding of the exact value |
| Fma.Cancelled | go1.26/src/math/fma.go:140-143 | equal magnitudes with opposite signs add to exactly zero |
| WidePair.ShrCompressIsSticky | go1.26/src/math/fma.go:39-61 | shrcompress is the floor of the shift with bit 0 or-ed with whether anything was lost, for every shift count |
| WidePair.ShlPairShifts | go1.26/src/math/fma.go:27-31 | shl multiplies the 128-bit pair by 2^n, dropping what leaves it |
| WidePair.LzCounts | go1.26/src/math/fma.go:63-69 | lz is the number of leading zeros of the pair |
| Rounding.StickyCompose | go1.26/src/math/fma.go:42-61 | two sticky truncations in a row are one |
| Rounding.NearestEvenSticky | go1.26/src/math/fma.go:172-177 | rounding to nearest even after a sticky truncation that kept two more bits is rounding the exact value |
| Rounding.NearestEvenIsNearest | go1.26/src/math/fma.go:167-177 | the quotient rounded half to even is at least as near as any integer, and even on a tie |
| Rounding.StickySub | go1.26/src/math/fma.go:156-165 | a sticky truncation subtracted from an even multiple is the sticky truncation of the difference |
| Sqrt.Sqrt | go1.26/src/math/sqrt.go:99-144 | zeros, NaN, infinities and negative operands as documented; every other operand gets its nearest root, and never a tie |
| Sqrt.Root | go1.26/src/math/sqrt.go:124-137 | the digit loop yields the 54-bit floor of the root of the scaled radicand and the exact remainder |
| Sqrt.RootFacts | go1.26/src/math/sqrt.go:124-142 | the integer root has 54 bits, is even when it is exact, and is never so large that rounding it up carries out |
| Sqrt.HalfRoot | go1.26/src/math/sqrt.go:138-143 | halving the root after adding its last bit unless the remainder is zero gives k with (2k-1)^2 < N < (2k+1)^2, N being four times the radicand: the nearest, and never a tie |
| Sqrt.RootIsNearest | go1.26/src/math/sqrt.go:138-143 | a significand with those bounds is the nearest of all floats to the real root |
| Sqrt.Normalise | go1.26/src/math/sqrt.go:107-119 | the subnormal loop terminates with the implicit bit in place and the value unchanged |
| Sqrt.NextDigit | go1.26/src/math/sqrt.go:128-137 | one digit keeps q*q + remainder = the radicand seen so far |
| Floor.Trunc | go1.26/src/math/floor.go:68-81 | the integer part, sign kept |
| Floor.Round | go1.26/src/math/floor.go:90-119 | the nearest integer, ties away from zero, for every finite pattern; NaN and infinities pass through |
| Floor.RoundToEven | go1.26/src/math/floor.go:128-158 | the nearest integer, ties to even, with carries running into the exponent |
| Floor.EvenCarry | go1.26/src/math/floor.go:141-149 | half an unit less one, plus the last kept bit, carries exactly when rounding up is right, also for 1 <= abs(x) < 2 where that bit is the exponent's |
| Mod.Mod | go1.26/src/math/mod.go:29-52 | special cases, and the exact remainder of x by y with the sign of x |
| Mod.ReduceBelow | go1.26/src/math/mod.go:35-47 | the loop terminates below y at r0 modulo y |
| Mod.Reduce | go1.26/src/math/mod.go:41-47 | one turn subtracts y*2^k with y*2^k <= r < 2*y*2^k, and the subtraction is exact in 53 bits |
| Mod.ExactSubtraction | go1.26/src/math/mod.go:46 | a difference of floats within a factor of two needs no rounding |
| Mod.RemainderMeaning | go1.26/src/math/mod.go:11-21 | abs(r) < abs(y), and abs(x) is a whole multiple of abs(y) plus abs(r) |
| Mod.SignedRemainder | go1.26/src/math/mod.go:29-52 | with the sign that Mod gives r, x - r is an integer multiple of y and r lies between zero and x |
| Mod.FrexpIs | go1.26/src/math/frexp.go:24-39 | frac in [1/2, 1) and frac*2^exp = f |
| Mod.LdexpIs | go1.26/src/math/ldexp.go:22-51 | with an exponent that is not negative and a result that is finite, ldexp is exact |
| Mod.LdexpRounds | go1.26/src/math/ldexp.go:22-51 | for every positive number and every exponent, ldexp is the number times 2^exp rounded once, with results below the normal range and overflow |
| Mod.NormalizeIs | go1.26/src/math/bits.go:61-67 | a subnormal number becomes a normal one 2^52 times as large with exponent -52, others stay; the fraction is the significand scaled to 53 bits |
| Mod.RoundUnitsCorrect | go1.26/src/math/mod.go:46 | what stands for the hardware's result in the model is the correct rounding of the exact number |
| ContextSteps.StepKeeps | go1.26/src/context/context.go:448-579 | every step of every call of every kind of context keeps the invariant of the tree |
| ContextRuns.InvHolds | go1.26/src/context/context.go:448-579 | the invariant holds in every state of every run from the background context |
| ContextRuns.QuietNode | go1.26/src/context/context.go:549-579 | with no call in progress, a cancelled context is closed, has no children, an unarmed timer and a settled AfterFunc; any other knows exactly its uncancelled children (its timer: ContextEffects.QuietTimer) |
| ContextRuns.QuietTree | go1.26/src/context/context.go:475-505 | with no call in progress, every context derived from a cancelled one, other than through WithoutCancel, is cancelled and closed |
| ContextEffects.TimersHold | go1.26/src/context/context.go:640-657 | in every state of every run, an uncancelled context with a deadline has its timer armed, or a call in progress that is about to make it or to cancel the context |
| ContextEffects.QuietTimer | go1.26/src/context/context.go:649-655 | with no call in progress, an uncancelled context with a deadline has its timer armed, so that the timer can fire |
| ContextEffects.DeadlineCancels | go1.26/src/context/context.go:640-657 | in every run, with no call in progress: when the deadline of an uncancelled context passes its timer can fire, and steps then lead to a rest in which Err is DeadlineExceeded and Cause that or the cause given |
| ContextEffects.TimerEffect | go1.26/src/context/context.go:649-655 | every way of coming to rest after a timer fired cancels exactly the uncancelled contexts derived from that one, with DeadlineExceeded and its cause, starts their AfterFunc functions, and leaves all others as they were |
| ContextEffects.CancelEffect | go1.26/src/context/context.go:549-579 | the same for a call of cancel, with Canceled and the cause given, or Canceled if that is nil |
| ContextEffects.CancelsAnyway | go1.26/src/context/context.go:549-579 | in every run, however many other calls are in progress: after a call of cancel, an effective stop, a timer firing or a constructor finding its deadline past, the context is cancelled and closed at every later point of rest |
| ContextEffects.StopEffect | go1.26/src/context/context.go:325-350 | stop keeps a function that was not started from ever being started and cancels the context; after that, or after the function was started, it does nothing |
| ContextEffects.StopsWereCalled | go1.26/src/context/context.go:325-350 | in every run, a function that will never be started had its stop called |
| ContextRuns.SetOnce | go1.26/src/context/context.go:557-568 | over any stretch of a run, err and cause once set, a closed channel, and an AfterFunc once started or stopped, stay so |
| ContextRuns.StepStable | go1.26/src/context/context.go:556-562 | a context is cancelled only by the first call to lock it, which gives it that call's error and cause |
| ContextRuns.CauseSource | go1.26/src/context/context.go:288-306 | the error and cause seen through any context are those of one context on the path upwards that was cancelled itself |
| ContextRuns.CauseWasAsked | go1.26/src/context/context.go:240-271 | at every point of every run they come from an earlier step of the run: a call of cancel or stop on that context, its timer firing, or its deadline found in the past |
| ContextRuns.NoDeadlock | go1.26/src/context/context.go:549-573 | while any call is in progress, some call can move: taking child locks under parent locks never deadlocks |
| ContextProgress.AdvanceLowers | go1.26/src/context/context.go:475-579 | every step of a call in progress lowers a rank of the tree |
| ContextProgress.CallsEnd | go1.26/src/context/context.go:475-579 | as long as no call is begun, a run from any state has no more steps than its rank: calls do not go on for ever |
| ContextProgress.ComesToRest | go1.26/src/context/context.go:475-579 | from every state, steps of the calls in progress lead to one in which all have returned |
| ContextRuns.NoFallback | go1.26/src/context/context.go:507-528 | library contexts never reach the afterFuncer and goroutine branches |
| ContextRuns.Value | go1.26/src/context/context.go:775-806 | the loop finds the innermost cancelCtx, not looking past WithoutCancel |
| ContextEffects.AnchorIsInnermost | go1.26/src/context/context.go:382-396 | whatever cancelCtx a context is derived from, not past WithoutCancel, the innermost one is derived from it too |
| ContextSteps.WinKeeps | go1.26/src/context/context.go:556-562 | the first cancel, storing err and cause under the lock, keeps the invariant |
| ContextSteps.CloseKeeps | go1.26/src/context/context.go:563-568 | closing the channel, or storing the shared closed one, keeps the invariant |
| ContextSteps.DescendKeeps | go1.26/src/context/context.go:569-572 | cancelling a child with the parent's lock held keeps the invariant |
| ContextSteps.DoneKeeps | go1.26/src/context/context.go:573-574 | forgetting the children and unlocking keeps the invariant: none of them was left uncancelled |
| ContextSteps.UnlinkKeeps | go1.26/src/context/context.go:399-413 | removeChild keeps the invariant |
| ContextSteps.EnlistKeeps | go1.26/src/context/context.go:493-503 | registering with an uncancelled parent keeps the invariant |
| ContextSteps.CallHeldKeeps | go1.26/src/context/context.go:493-503 | a parent cancelled before its lock was taken cancels the newborn instead |
| ContextSteps.CallKeeps | go1.26/src/context/context.go:483-487 | so does a parent whose channel was found closed |
| ContextSteps.FinishKeeps | go1.26/src/context/context.go:352-360 | stopping the timer, or starting the function once, keeps the invariant |
| ContextSteps.DeadlineKeeps | go1.26/src/context/context.go:640-657 | making the timer, or cancelling at once when the deadline has passed, keeps the invariant (that it is made: ContextEffects.TimersHold) |
| PipeSteps.StepKeeps | go1.26/src/io/pipe.go:49-122 | every step keeps the invariant of the pipe |
| PipeRuns.InvHolds | go1.26/src/io/pipe.go:49-122 | the invariant holds in every state of every run |
| PipeRuns.Conservation | go1.26/src/io/pipe.go:56-90 | the chunks copied to readers in rendezvous order are the prefixes acknowledged to writers in lock order, and at most one chunk more |
| PipeRuns.WriteResult | go1.26/src/io/pipe.go:75-95 | a Write that returns nil had every byte delivered, an empty one in exactly one rendezvous; n counts the bytes delivered; the error is the reader's, or ErrClosedPipe only if the write end was closed; after done it delivers nothing (which error, and from where: PipeErrors) |
| PipeRuns.ReadResult | go1.26/src/io/pipe.go:49-64 | a Read that returns nil has the bytes of exactly one chunk and the rest of its buffer unchanged; one that fails took nothing; likewise for its error |
| PipeErrors.ErrorsGiven | go1.26/src/io/pipe.go:66-105 | in every run, the error of each end is that of an earlier call that closed it: the error given, else EOF for the write end and ErrClosedPipe for the read end |
| PipeErrors.ReadError | go1.26/src/io/pipe.go:49-64 | in every run, a Read that fails returns ErrClosedPipe if the read end was closed before it began or the write end is still open, and the error that closed the write end if the read end is still open; never anything else |
| PipeErrors.WriteError | go1.26/src/io/pipe.go:75-95 | likewise for a Write, with the ends exchanged |
| PipeErrors.CloseResult | go1.26/src/io/pipe.go:66-105 | a close that has returned has closed its own end and done |
| PipeErrors.GiveFills | go1.26/src/io/pipe.go:56-59 | a rendezvous delivers what is left of the slice or fills the buffer, whichever is less |
| PipeRuns.CanAck | go1.26/src/io/pipe.go:57-59 | a reader holding a chunk can always acknowledge it, to the writer that holds the lock and no other |
| PipeSteps.Paired | go1.26/src/io/pipe.go:86-89 | a count received belongs to the writer's own chunk and never exceeds its slice |
| PipeRuns.AtRest | go1.26/src/io/pipe.go:49-95 | when nothing can move, unfinished calls are readers only or writers only, on an open pipe |
| PipeRuns.RunFinal | go1.26/src/io/pipe.go:20-32 | the close errors and done are set once, and finished calls never change |
| Buffers.Fifo | go1.26/src/bytes/buffer.go:186-389 | over every run of writes and reads, the bytes written are the bytes read followed by the bytes unread |
| Buffers.Drive | go1.26/src/bytes/buffer.go:128-445 | for any jobs on any buffer, each done as the operation it asks for: what is returned and what is left are those of the run of the queue, and the bytes copied while growing are those unread at each move, eight times what was ever asked for at most |
| Buffers.DriveNew | go1.26/src/bytes/buffer.go:128-445 | for any jobs on a new buffer: what was written is what is returned and what is left, in order; what was copied is at most eight times what was asked for; and no job is refused before a fifth of the greatest int has been asked for |
| Buffers.AskedIsWritten | go1.26/src/bytes/buffer.go:128-315 | without Grow, the bytes asked for are those written, or twice as many at most where runes are written |
| Buffers.Buffer.GrowBy | go1.26/src/bytes/buffer.go:139-169 | room for n bytes after the unread ones, which are kept; a slide moves no more than was consumed since the last move |
| Buffers.MovedBound | go1.26/src/bytes/buffer.go:139-169 | what every state keeps bounds the bytes ever copied, which MoveDown and GrowSlice count, by eight times the bytes ever asked for |
| Buffers.SlidePaid | go1.26/src/bytes/buffer.go:153-157 | a slide is paid for by bytes consumed before it |
| Buffers.RegrowPaid | go1.26/src/bytes/buffer.go:158-163 | a reallocation is paid for by consumed bytes or by a capacity half as large again |
| Buffers.Buffer.SlideDown | go1.26/src/bytes/buffer.go:153-168 | the unread bytes at the front of the same array, and what it cost |
| Buffers.Buffer.Reallocate | go1.26/src/bytes/buffer.go:160-168 | the unread bytes at the front of a larger array, and what it cost |
| Buffers.Buffer.GrowSlice | go1.26/src/bytes/buffer.go:238-259 | a fresh array of at least twice the capacity with the same contents |
| Buffers.Buffer.TryGrowByReslice | go1.26/src/bytes/buffer.go:128-134 | succeeds exactly when the capacity suffices, and changes only the length |
| Buffers.Buffer.Grow | go1.26/src/bytes/buffer.go:175-181 | room for n more bytes, no change to the contents, and at most one copy of them |
| Buffers.Buffer.Write | go1.26/src/bytes/buffer.go:186-193 | p is appended to the queue, at the price of at most one copy of what is unread |
| Buffers.Buffer.WriteByte | go1.26/src/bytes/buffer.go:289-297 | one byte is appended |
| Buffers.Buffer.WriteRune | go1.26/src/bytes/buffer.go:302-315 | the UTF-8 form of r is appended |
| Buffers.Buffer.Read | go1.26/src/bytes/buffer.go:320-336 | the front of the queue is copied out, the rest of p unchanged; EOF exactly when empty and p is not |
| Buffers.Buffer.Bytes | go1.26/src/bytes/buffer.go:58-58 | the unread bytes |
| Buffers.Buffer.Next | go1.26/src/bytes/buffer.go:342-354 | the next n bytes, or all |
| Buffers.Buffer.ReadByte | go1.26/src/bytes/buffer.go:358-368 | the first byte, or EOF |
| Buffers.Buffer.ReadRune | go1.26/src/bytes/buffer.go:373-389 | the first code point and its width |
| Buffers.Buffer.ReadBytes | go1.26/src/bytes/buffer.go:426-445 | the bytes through the first delimiter, or all with EOF |
| Buffers.Buffer.UnreadByte | go1.26/src/bytes/buffer.go:410-419 | takes the last byte back, or fails, as lastRead and off decide |
| Buffers.Buffer.UnreadRune | go1.26/src/bytes/buffer.go:394-403 | takes the last code point back, or fails unless it was just read |
| Buffers.Buffer.Truncate | go1.26/src/bytes/buffer.go:105-115 | all but the first n unread bytes are dropped; panics exactly when n is out of range |
| Buffers.Buffer.Reset | go1.26/src/bytes/buffer.go:120-124 | the unread bytes are dropped, the array kept |
| Buffers.UnreadUndoes | go1.26/src/bytes/buffer.go:394-419 | after a read of at least one byte, UnreadByte puts back its last byte, and after ReadRune UnreadRune restores the contents |
| Buffers.UnreadByteLaw | go1.26/src/bytes/buffer.go:407-419 | for every operation, whether UnreadByte then fails: as documented, except after a ReadBytes that met the end, and as before after Grow and a failing UnreadRune |
| Buffers.UnreadAfterEmptyRead | go1.26/src/bytes/buffer.go:434-445 | a buffer for which it succeeds after a read of nothing |
| Buffers.UnreadAfterGrow | go1.26/src/bytes/buffer.go:175-181 | a buffer for which it succeeds and takes nothing back |
| Buffers.UnreadByteEffect | go1.26/src/bytes/buffer.go:410-419 | a successful UnreadByte changes the contents if and only if a consumed byte is still in front |
| BufferLaws.ReadLaw | go1.26/src/bytes/buffer.go:320-354 | Read and Next take the smaller of n and what there is; Read fails exactly when asked for some with none there |
| BufferLaws.ReadOneLaw | go1.26/src/bytes/buffer.go:358-389 | ReadByte and ReadRune take one byte and one code point and fail exactly at the end |
| BufferLaws.ReadBytesLaw | go1.26/src/bytes/buffer.go:434-445 | ReadBytes takes everything through the first delimiter, and fails, taking all, exactly when there is none |
| BufferLaws.WriteLaw | go1.26/src/bytes/buffer.go:175-193 | a write puts its bytes behind the unread ones, Grow changes nothing that can be read, and after a write nothing can be taken back |
| BufferLaws.TruncateLaw | go1.26/src/bytes/buffer.go:105-115 | Truncate keeps the first k unread bytes, refuses to keep more than there are, and frees the array at 0 |
| BufferLaws.UnreadRuneLaw | go1.26/src/bytes/buffer.go:391-403 | for every operation, whether UnreadRune then fails: exactly unless it was a ReadRune that succeeded, and as before after Grow, unless that reset the buffer |
| BufferLaws.UnreadFails | go1.26/src/bytes/buffer.go:394-419 | the unread methods take nothing, and change nothing when they fail |
| Dial.InvHolds | go1.26/src/net/dial.go:655-725 | the invariant of the race holds in every state of every run |
| Dial.OneFallback | go1.26/src/net/dial.go:697-722 | the fallback racer is started at most once |
| Dial.FallbackStarts | go1.26/src/net/dial.go:691-722 | in every run, once the primary has failed the fallback racer is there or nothing is left to wait for; before that it is started only when the timer has run out |
| Dial.NeverStuck | go1.26/src/net/dial.go:697-724 | while the main loop waits there is always something left to happen |
| Dial.RankDecreases | go1.26/src/net/dial.go:697-724 | every step brings the race closer to its end |
| Dial.RunIsShort | go1.26/src/net/dial.go:697-724 | no run has more than ten steps |
| Dial.ErrorIsPrimary | go1.26/src/net/dial.go:708-715 | an error is returned only after both racers failed, and is the primary's |
| Dial.NoLeak | go1.26/src/net/dial.go:671-684 | at rest, every connection made is the one returned, or was closed by its racer |
| Dial.DialSerial | go1.26/src/net/dial.go:729-769 | addresses are tried in order up to the first success; the error is the cancellation, else that of the first address; each dial gets its fair part of the time that is left then, neither less nor more |
| Dial.AllotmentBounds | go1.26/src/net/dial.go:270-290 | a part is positive, within what is left, and two seconds at least if that much is left; the last address gets everything |
| Dial.AllotmentIsShare | go1.26/src/net/dial.go:278-288 | a part is an equal share at least, and no more than that or two seconds |
| Dial.FairPartIsOne | go1.26/src/net/dial.go:270-290 | these bounds leave one part only, so that DialSerial fixes every deadline |
| Dial.SharesDoNotShrink | go1.26/src/net/dial.go:278-288 | an address that uses up an equal share leaves the next no less |
| Dial.OwnDeadline | go1.26/src/net/dial.go:739-754 | a dial with its own deadline ends strictly before the caller's |
| MediaTypeRoundTrip.RoundTrip | go1.26/src/mime/mediatype.go:19-226 | for a valid type and names that are lower-case tokens without a star, with any byte values, parsing what was formatted gives the lower-case type and exactly the parameters |
| MediaTypeRoundTrip.RoundTripIff | go1.26/src/mime/mediatype.go:19-226 | that holds for exactly the parameters with such names |
| MediaTypeRepeats.Repeats | go1.26/src/mime/mediatype.go:145-184 | for every list of parameters, names repeated as one likes: the error for duplicates exactly if one name has two different values in the same form; else the invalid-parameter error if the header ends in a name without a value; else exactly the names given, an extended value before a plain one; a last semicolon changes nothing |
| MediaTypeLaws.SpacesDoNotMatter | go1.26/src/mime/mediatype.go:303-328 | any white space around the semicolon, the name and the equals sign leaves the parameter as it is |
| MediaTypeLaws.TypesAre | go1.26/src/mime/mediatype.go:96-114 | a media type is accepted exactly if it is a token, or two with a slash between them |
| MediaTypeLaws.TokenChars | go1.26/src/mime/grammar.go:38-69 | token characters are letters, digits and those of section 5.1 of RFC 2045 |
| MediaTypeLaws.AttributeChars | go1.26/src/mime/mediatype.go:54-61 | the characters that are not percent-encoded are those of section 7 of RFC 2231 |
| MediaType.FormatMediaType | go1.26/src/mime/mediatype.go:19-94 | the text is the type followed by each parameter in its form, or empty exactly when the type or a name is not a token |
| MediaType.WritePercent | go1.26/src/mime/mediatype.go:51-73 | the value with exactly the non-attribute characters percent-encoded |
| MediaType.WriteQuoted | go1.26/src/mime/mediatype.go:80-91 | the value with exactly its quotes and backslashes escaped |
| MediaType.ConsumeQuoted | go1.26/src/mime/mediatype.go:267-301 | the loop over a quoted string agrees with its recursive reading |
| MediaType.JoinParts | go1.26/src/mime/mediatype.go:195-222 | the loop over continuation parts, plain and encoded in any mixture, agrees with the recursive reading, and reports whether there was any part |
| MediaTypeParts.Continuations | go1.26/src/mime/mediatype.go:133-226 | for any split of a value into parts, each plain or percent-encoded, written in any order, parsing the header gives the value |
| MediaTypeParts.JoinFrom | go1.26/src/mime/mediatype.go:195-222 | joining from any part on yields the rest of the value |
| MediaTypeParts.GapEnds | go1.26/src/mime/mediatype.go:195-222 | the first part missing ends the value, whatever comes after it; without part 0 there is none; a part given both ways counts as plain |
| MediaType.PartNamesDiffer | go1.26/src/mime/mediatype.go:197-206 | the keys of different parts never coincide, encoded or not |
| MediaTypeRoundTrip.Parse | go1.26/src/mime/mediatype.go:133-226 | the parameter loop agrees with the recursive parser, errors and duplicates included |
| MediaTypeRoundTrip.PercentHexUnescape | go1.26/src/mime/mediatype.go:330-363 | counting first and filling an array afterwards decodes the text, and fails exactly on a malformed escape |
| MediaTypeRoundTrip.PercentRoundTrip | go1.26/src/mime/mediatype.go:51-73 | decoding a percent-encoded byte string gives it back |
| MediaTypeLaws.PercentSplits | go1.26/src/mime/mediatype.go:330-363 | every text is a list of characters and escapes and perhaps a bad escape; decoding gives the bytes of the list, and fails exactly on the latter |
| MediaTypeRoundTrip.QuotedValue | go1.26/src/mime/mediatype.go:80-91 | a quoted value is read back, whatever follows it |
| MediaTypeLaws.LiteralBackslash | go1.26/src/mime/mediatype.go:281-292 | a backslash before a character that needs none is kept |
| MediaTypeLaws.Unended | go1.26/src/mime/mediatype.go:273-300 | a quoted string without an end is no value |
| MediaTypeRoundTrip.ExtendedValue | go1.26/src/mime/mediatype.go:230-250 | an extended value is read back through its charset prefix |
| MediaTypeLaws.ExtendedCharsets | go1.26/src/mime/mediatype.go:230-250 | with any language, in either of the two character sets in any letter case and in no other |
| MediaTypeRoundTrip.ReadParam | go1.26/src/mime/mediatype.go:303-328 | one formatted parameter is consumed with its name, value and nothing else |
| MediaTypeRoundTrip.ParsedKeys | go1.26/src/mime/mediatype.go:149-224 | no parse of any text yields a name with an upper-case letter or a star |
| EncodedWord.QEncodeWord | go1.26/src/mime/encodedword.go:51-137 | the words written are those of a cut of s into pieces; for UTF-8 in any letter case the pieces fit, end between characters, and none but the last had room for the next character |
| EncodedWord.WordLength | go1.26/src/mime/encodedword.go:69-75 | each encoded-word has 75 characters at most |
| EncodedWord.ChunkLen | go1.26/src/mime/encodedword.go:117-128 | the length qEncode reckons with is the length writeQString produces |
| EncodedWordRoundTrip.RoundTrip | go1.26/src/mime/encodedword.go:110-296 | DecodeHeader of any cut of a text into Q-encoded UTF-8 words is the text |
| EncodedWordRoundTrip.EncodeThenDecode | go1.26/src/mime/encodedword.go:51-296 | DecodeHeader of what the encoder wrote for s is s, for every byte string |
| EncodedWordHeaders.MixedHeader | go1.26/src/mime/encodedword.go:224-296 | for any alternation of texts, Q words in UTF-8 and malformed words: the texts and the decoded words in order, without exactly those texts that are white space between two decoded words; malformed words stay |
| EncodedWordHeaders.PlainHeader | go1.26/src/mime/encodedword.go:225-229 | a header without the beginning of a word comes back unchanged |
| EncodedWordHeaders.UnfinishedHeader | go1.26/src/mime/encodedword.go:237-266 | so does one that ends in an unfinished word, whichever part of it is missing |
| EncodedWordRoundTrip.DecodeHeaderLoop | go1.26/src/mime/encodedword.go:224-296 | the loop with its flag for adjacent words agrees with the recursive scan (what that means: EncodedWordHeaders) |
| EncodedWordRoundTrip.QDecodeWord | go1.26/src/mime/encodedword.go:354-380 | the array loop decodes Q text, failing exactly on a bad escape or byte |
| EncodedWordRoundTrip.QRoundTrip | go1.26/src/mime/encodedword.go:140-153 | Q decoding undoes Q encoding, which never writes a question mark |
| EncodedWordHeaders.QTextDecodes | go1.26/src/mime/encodedword.go:354-407 | every list of underscores, plain characters and escapes with digits of either case decodes to its bytes |
| EncodedWordHeaders.QTextSplits | go1.26/src/mime/encodedword.go:354-380 | every text is such a list and perhaps something bad, on which alone decoding fails |
| EncodedWordHeaders.QTextIsVisible | go1.26/src/mime/encodedword.go:140-153 | Q text has no white space, no control characters and no question mark |
| EncodedWordRoundTrip.FindWord | go1.26/src/mime/encodedword.go:239-268 | an encoded-word is found whole, with the charset and text it was written with |
| Html.RoundTrip | go1.26/src/html/escape.go:164-177 | UnescapeString(EscapeString(s)) = s for every byte string |
| Html.EscapedIsSafe | go1.26/src/html/escape.go:164-177 | no quote or angle bracket survives EscapeString |
| Html.EscapedForms | go1.26/src/html/escape.go:164-177 | the five characters are written as documented |
| Html.NothingToEscape | go1.26/src/html/escape.go:164-177 | a text without them is left alone |
| Html.UnescapeString | go1.26/src/html/escape.go:183-210 | the loop over moving cursors computes the recursive decoding, for every input |
| Html.UnescapeEntity | go1.26/src/html/escape.go:55-162 | in place: what the reference stands for is written at dst, dst stays at or before src, and b[src:] is still the input |
| Html.UnescapeName | go1.26/src/html/escape.go:122-161 | the same for a named reference, with the longest prefix known when the whole name is not |
| Html.EntityShrinks | go1.26/src/html/escape.go:55-162 | a reference never stands for more bytes than it has, given that of the tables |
| Html.ScanNumber | go1.26/src/html/escape.go:81-104 | the digit loop, with the wrap-around of int32 |
| HtmlStandard.NumericIsStandard | go1.26/src/html/escape.go:68-120 | a numeric reference is decoded as the standard has it if and only if it is not one decimal digit without its semicolon, not a hexadecimal one without digits but with a semicolon, and does not overflow to another character |
| HtmlStandard.TextStays | go1.26/src/html/escape.go:69-109 | where a numeric reference has no digit, the characters after its ampersand are text to the code too |
| HtmlStandard.NumberWraps | go1.26/src/html/escape.go:81-104 | the loop computes the true value modulo 2^32, and stops where the true digits stop |
| HtmlStandard.LoneDigitExample | go1.26/src/html/escape.go:69-109 | a reference of one digit, which the code leaves as text and the standard decodes |
| HtmlStandard.NoHexDigitsExample | go1.26/src/html/escape.go:104-119 | a reference without digits, which the code decodes and the standard leaves as text |
| HtmlStandard.OverflowExample | go1.26/src/html/escape.go:81-119 | a number of ten digits that the code decodes as a less-than sign and the standard as U+FFFD |
| HtmlStandard.NamedIsStandard | go1.26/src/html/entity.go:2163-2166 | given the standard's tables, a named reference is decoded as the standard has it if and only if its name is not one of the two that the code's table leaves out |
| HtmlStandard.WideExample | go1.26/src/html/entity.go:2164-2166 | such a reference, which the code leaves as text and the standard decodes to six bytes |
| HtmlStandard.NamedIsLongest | go1.26/src/html/escape.go:122-161 | a named reference stands for the longest name in the code's tables that the text begins with, or for itself, a lone ampersand at the end included, given that names without a semicolon have two to six bytes |
| Bufio.Reader.ReadLines | go1.26/src/bufio/bufio.go:393-426 | for every buffer size and chunking, the fragments joined where isPrefix says so are exactly the lines of the input |
| Bufio.Reader.ReadLine | go1.26/src/bufio/bufio.go:393-426 | a fragment, what it took from the stream, and a \r at a full buffer put back rather than lost or doubled |
| Bufio.WholeLine | go1.26/src/bufio/bufio.go:396-424 | cutting a line into such fragments changes neither where it ends nor what is dropped |
| Bufio.Reader.ReadBytes | go1.26/src/bufio/bufio.go:462-473 | exactly the input through the first delimiter, or with an error the input to its end |
| Bufio.Reader.CollectFragments | go1.26/src/bufio/bufio.go:432-454 | the full buffers and the last fragment, joined, are what was taken from the stream |
| Bufio.Reader.ReadSlice | go1.26/src/bufio/bufio.go:339-378 | through the delimiter, or a full buffer, or all that is left with the error; nothing lost |
| Bufio.Reader.Fill | go1.26/src/bufio/bufio.go:95-123 | the stream is unchanged, and there is more data or an error |
| Bufio.LinesOfText | go1.26/src/bufio/bufio.go:380-392 | splitting a text joined from lines gives the lines back |
| LineLaws.LinesAre | go1.26/src/bufio/bufio.go:380-426 | for any mixture of lines ended by \n and by \r\n and a tail: the reader's lines are their texts and the tail; the scanner's tokens likewise, without a last \r |
| LineLaws.EveryText | go1.26/src/bufio/scan.go:311-336 | every text is such a mixture |
| LineLaws.ShortLinesAre | go1.26/src/bufio/scan.go:169-187 | what the scanner needs to succeed, said without its own lines: no stretch without \n is as long as the limit |
| Scan.Scanner.ScanAll | go1.26/src/bufio/scan.go:115-212 | with lines shorter than the limit, the tokens are those of the whole input, whatever the chunks, shifts and doublings |
| Scan.Scanner.Scan | go1.26/src/bufio/scan.go:115-212 | the next token of the stream and the stream after it; false only at the end, on a stalled source, or with a line that is too long |
| Scan.Scanner.MakeRoom | go1.26/src/bufio/scan.go:162-187 | room in the buffer with the stream unchanged, or ErrTooLong only when a full buffer of the greatest size has no line end |
| Scan.Scanner.ReadMore | go1.26/src/bufio/scan.go:188-210 | the stream is unchanged, and the source has given data or an error |
| Scan.NextToken | go1.26/src/bufio/scan.go:322-336 | a token found in the buffered part is the token of the whole stream |
| Scan.TokensAreLines | go1.26/src/bufio/scan.go:311-336 | the scanner's tokens and the reader's lines agree exactly when the input does not end in \r |
| Utf8.DecodeEncode | go1.26/src/unicode/utf8/utf8.go:153-203 | decoding undoes encoding for every valid code point, whatever follows |
| Utf8.EncodeDecode | go1.26/src/unicode/utf8/utf8.go:350-387 | what is decoded without error is the encoding of its code point |
| Utf8.EncodedLength | go1.26/src/unicode/utf8/utf8.go:350-387 | the number of bytes by range, as section 3 of RFC 3629 has it; what is no code point is written as U+FFFD |
| Utf8.EncodingKeepsOrder | go1.26/src/unicode/utf8/utf8.go:350-387 | encodings are ordered as their code points |
| IndexBytes.IndexRune | go1.26/src/bytes/bytes.go:138-211 | the first position at which decoding from the left yields r, for every rune, byte string and way of falling back |
| IndexBytes.SelfSynchronising | go1.26/src/bytes/bytes.go:154-186 | for valid r, that position is where the encoding of r first occurs, malformed bytes notwithstanding |
| IndexBytes.SearchRune | go1.26/src/bytes/bytes.go:158-185 | the search by last byte finds the first occurrence |
| IndexBytes.Fallback | go1.26/src/bytes/bytes.go:187-209 | so do both fallbacks, resumed in the middle |
| IndexBytes.Index | go1.26/src/bytes/bytes.go:1230-1310 | the first occurrence of sep, whichever of the searches and cutovers is taken |
| AddrSelect.CommonPrefixLen | go1.26/src/net/addrselect.go:335-368 | the number of leading bits two addresses of one family share, 64 at most for IPv6 |
| AddrSelect.AsDocumented | go1.26/src/net/addrselect.go:325-346 | it does as documented if and only if the first address needs no conversion or the first bits differ anyway |
| AddrSelect.MixedVersions | go1.26/src/net/addrselect.go:330-346 | two addresses of different versions that get 64 bits in common |
| AddrSelect.SameAddress | go1.26/src/net/addrselect.go:330-342 | one address in two forms that gets no bit in common with itself |
| AddrSelect.DifferingByte | go1.26/src/net/addrselect.go:355-366 | the shift loop finds how many leading bits two bytes share |
| AddrSelect.ClassifyIn | go1.26/src/net/addrselect.go:283-294 | the loop yields the first matching entry |
| AddrSelect.LongestMatch | go1.26/src/net/addrselect.go:280-294 | in a table sorted by prefix length, the first match is the longest |
| AddrSelect.ClassifyIsLongest | go1.26/src/net/addrselect.go:218-278 | the policy table is so sorted: every address gets its longest match |
| AddrRanges.ClassifyByRange | go1.26/src/net/addrselect.go:218-294 | every address has the precedence and label of its range, by its first bytes |
| AddrRanges.ScopeByRange | go1.26/src/net/addrselect.go:308-323 | every address has the scope of section 3.1 of RFC 6724, by its range |
| AddrSelect.MappedPrecedence | go1.26/src/net/addrselect.go:227-233 | an address has precedence 35 if and only if it is an IPv4 one |
| AddrSelect.CompareIsRank | go1.26/src/net/addrselect.go:90-208 | the comparison is the lexicographic order of one rank per record, although rule 9 looks at IPv6 only |
| AddrRanges.CompareByRules | go1.26/src/net/addrselect.go:90-208 | the comparison goes by the first of the rules 1, 2, 5, 6, 8 and 9 of section 6 of RFC 6724 that tells the two apart, with precedence, label and scope given by range |
| AddrSelect.TotalPreorder | go1.26/src/net/addrselect.go:90-208 | it is a total preorder on all pairs of destination and source |
| Iter.Pull.CallNext | go1.26/src/iter/iter.go:260-319 | the value or end or panic that seq's next action gives, and the state after it (over runs: EveryAnswer) |
| Iter.Pull.CallStop | go1.26/src/iter/iter.go:320-339 | seq is told to end, unless it never ran, and its panic is raised here |
| Iter.NthNext | go1.26/src/iter/iter.go:266-319 | the n-th call of next returns the n-th value that seq yields |
| Iter.EveryAnswer | go1.26/src/iter/iter.go:250-341 | in every run the n-th call, if all before it were a next that got a value, answers what seq then does: a value, (zero, false) at its end, its panic or exit, or for stop what seq does at the end of a list of answers true and then false; any other call is quiet |
| Iter.ValueHere | go1.26/src/iter/iter.go:266-319 | in every run the n-th call returns (v, true) if and only if it is a next, every call before it was one that got a value, and seq then yields v |
| Iter.OverForever | go1.26/src/iter/iter.go:298-300 | after the end, next returns zero and false for ever, and stop nothing |
| Iter.OnlyOnce | go1.26/src/iter/iter.go:281-317 | after a call that returned no value every call is quiet, so a panic is raised by one call at most |
| Iter.PanicsHere | go1.26/src/iter/iter.go:281-317 | in every run the n-th call panics with p if and only if every call before it was a next that got a value and seq panics with p during it |
| Iter.Drive | go1.26/src/iter/iter.go:250-341 | any calls on a new Pull return what the specification of the run says (what that is: EveryAnswer) |

## Left out

- Fma.FMA: zero, infinite and NaN operands are not modelled; they are handed to the hardware's x*y+z by one branch.
- Floor: Floor and Ceil, each a call of Modf, are not modelled.
- Sqrt.Sqrt and Mod.Mod: which NaN pattern is returned is fixed to the source's constant.
- Context: Deadline and Value for user keys, String methods, custom Context implementations and the branches only they reach.
- Context: the fields err and cause are one value, since they are always written in one lock section; Err waits for the channel to close before it returns.
- Pipe, Context and Dial: weak memory and scheduling; each lock section, atomic operation and rendezvous is one step, and fairness is not assumed.
- Dial: dialSingle is an oracle; the contexts that cancel the losing racer are not modelled.
- Buffers.Buffer: ReadFrom, WriteTo, Peek, AvailableBuffer and NewBuffer; a slice that shares the array is a copy taken when it is returned; running out of memory.
- MediaType.FormatMediaType: sorting the names is given by the order in which they are passed; the result is parsed back whatever the order.
- MediaType: ToLower, TrimSpace and IsSpace on text that is not ASCII are parameters.
- EncodedWord.QEncodeWord: Encode, which returns a text that needs no encoding as it is; the B encoding and base64, and WordDecoder.Decode for a single word, are not modelled; character sets other than UTF-8 are one parameter.
- Html: the contents of the entity tables; they are maps whose entries are no shorter than what they stand for, with the three entries EscapeString relies on, and for HtmlStandard with names of letters and digits that end in a semicolon or have two to six bytes, and which are the standard's but for two names.
- Bufio.Reader: Read, Peek, Discard, WriteTo, runes and UnreadByte; the panic for a negative count from the source.
- Scan.Scanner: split functions other than ScanLines; the count of empty tokens only matters for functions that return a token without advancing, which ScanLines does not.
- IndexBytes: bytealg's routines are given by what they promise.
- AddrSelect: finding source addresses, and the library's stable sort; the comparison is what it needs.
- AddrSelect: zones of IPv6 addresses.
- Iter.Pull: Pull2 differs only in the pair of values; calling next or stop from inside seq, or yield from outside, which the source detects and panics about; seq is assumed to end some time after yield has answered false, with any bound of its own at each point, without which stop would not return.
