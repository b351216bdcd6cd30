# LPC824 bare-metal firmware: a verified model

The project models the parts of the LPC824 infrared-receiver firmware and of its flash loader
that carry real logic, and proves what they are meant to guarantee. The modules follow the
program's own files.

| module | models |
|---|---|
| `NecDecoder`, `NecFrames`, `NecTiming`, `NecResync`, `NecRoundTrip` | the NEC infrared receiver of `ir_recv.c` and the loop of `main.c` that consumes it |
| `NecHandoff`, `NecDelivery`, `NecDuplicates` | the unlocked hand-off from the edge interrupt to the main loop, what the main loop reports in terms of the signal alone, and when it reports a code twice |
| `Saturation`, `Reciprocal`, `Pid`, `Park`, `Interpolation`, `Circular` | the fixed-point kernels of `arm_math.h`, in the form a Cortex-M0+ build selects |
| `AdPacket`, `AdDownload` | packets, stop-and-wait sending and the whole download of `lpc21isp/adprog.c` |
| `Nvic` | the packed interrupt priorities of `core_cm0plus.h` |
| `LibUtil` | the byte loops of `libutil.c` |
| `Bits`, `Arithmetic`, `Wrappers` | machine words as numbers and C's bitwise operators on them, facts about products and quotients, and `Option` |

Code that changes variables step by step is a method, or a class with methods, proved equal to a
function of the old state; the theorems are then about that function and its runs. Integer widths
are explicit: `ToInt32`, `ToUint32` and their relatives stand for C's conversions, `%` for
unsigned wrap-around, and `/` by a power of two for an arithmetic shift.

## Reading guide

* **Reception.** One run of the interrupt handler is `NecDecoder.Step`, on any edge flags and any
  delay. What a frame is, is said of the edges alone: an edge begins one when it falls and either
  follows more than 15 ms of silence or no earlier attempt is under way (`NecFrames.Begins`).
  `AssignsExactlyFrames` says, for every alternating signal, that a code is assigned exactly at
  the end of such a frame, with the value the frame spells; `StreamReceived` says that after a
  silence reception starts afresh whatever happened before. `NecTiming` says all this in
  microseconds: `FrameIsReceived`, `AssignedIsCarried` and one lemma for each edge. `ReturnsOnlyFrames` carries it
  through the hand-off, for every interleaving of interrupts and main-loop steps.
* **Delivery.** No code is lost except to a newer one (`NothingIsLost`, `CatchesUp`), but one can
  be delivered twice. That happens exactly when, with no later code completed, a frame or a repeat
  ended while the main loop was between clearing the flag and reading the code, and that read has
  been made; or when a repeat ended after everything was read (`DuplicateExactly`,
  `ReadsNewExactly`, over all runs). `DuplicateExists` is a whole run.
* **Fixed point.** `NewtonStep` and `TwoSteps` are exact integer error bounds for any table entry,
  for both word sizes at once; `ErrorSquares` is the identity behind them. `ObeysPositionalLaw`
  relates the incremental PID code to the positional law over whole runs. `RoundTrip` in `Park`
  bounds the error of the transform followed by its inverse. How long a vector may be for it to
  hold at every angle is known to 24 units in 2^31: up to six below 2^31 it does (`CircleRoundTrip`),
  and beyond 18 above some angle breaks it (`OutsideFails`). `DelayLine` turns any sequence of block writes
  followed by a read into a delayed stream, for buffers of up to 2^16 elements and no longer ones
  (`HistoryExactly`, `DelayLineFails`).
* **Download.** The line may lose, damage or answer each attempt in any pattern. A successful
  return means that the device holds exactly the image, and it happens exactly when every packet
  is acknowledged within three attempts.

## Where the code and its comments differ

* `arm_linear_interp_q31` has a test for a negative table index that is meant to return the first
  entry. The mask makes the shifted value unsigned, so the index is never negative;
  `BelowTable` states what negative arguments give instead.
* `arm_recip_q31` and `arm_recip_q15` take the sign bits of `-in` for negative arguments, as if
  they supported them. The Q31 result is positive for every argument, so it has the right sign
  exactly for positive ones (`RecipQ31`). The Q15 function has no clip, and its passes wrap: a
  negative first pass gives the right sign, and in all the sign is right exactly when the first
  product lies in one of two ranges, or else the second one does (`RightSign15`). Both signs
  occur for the same argument (`NegativeSigns15`).
* The circular buffers store the write offset in 16 bits although the length has 32. For every
  longer buffer two block writes lose samples (`DelayLineFails`). Their comments tell the reader
  to watch for positive and negative increments, but the code only ever subtracts the length. A
  negative increment never wraps and one beyond the length climbs; `InBoundsExactly` says for
  every increment when the accesses stay inside the buffer.
* `memcpy` copies forwards. `MoveExactly` gives the exact condition under which it is a correct
  move inside one buffer.

## Model

| member | source | states |
|---|---|---|
| NecDecoder.WindowInCounts | bare_metal/ir_recv.c:44-61 | a timing window in microseconds is an exact window of counts gone by from 0x7FFFFFFF, 30 a microsecond, open up to the end of its last microsecond |
| NecDecoder.StoreBitAdds | bare_metal/ir_recv.c:168-181 | the OR that stores a bit adds it at its weight without overflow, and the 32nd bit completes the code |
| NecDecoder.StepKeepsBound | bare_metal/ir_recv.c:83-188 | every interrupt, whatever flags and delay it finds, keeps fewer than 32 bits stored and nothing set above them in the data states, so no shift is ever 32 or more |
| NecDecoder.RunKeepsBound | bare_metal/ir_recv.c:83-188 | the same over every run |
| NecDecoder.OnlyCompleteFramesAssign | bare_metal/ir_recv.c:154-182 | the last code is assigned exactly by a valid 32nd bit space, which also signals; aborted frames never touch it; the only other signal is a repeat space |
| NecDecoder.IrReceiver.constructor | bare_metal/ir_recv.c:74-78 | the initial values of the five variables |
| NecDecoder.IrReceiver.PinInterrupt | bare_metal/ir_recv.c:83-188 | the handler, updating the variables in place, is one `Step` with the elapsed time of the down counter |
| NecDecoder.IrReceiver.CodeReady | bare_metal/ir_recv.c:222-225 | reports the flag and changes nothing |
| NecDecoder.IrReceiver.GetCode | bare_metal/ir_recv.c:227-231 | returns the last code, clears the flag and changes nothing else |
| NecFrames.FrameProgress | bare_metal/ir_recv.c:105-171 | after any `j` edges of a frame the decoder is exactly `j` edges in, holds the bits spelled so far, has kept the last code and signalled nothing |
| NecFrames.FrameDelivers | bare_metal/ir_recv.c:100-182 | a whole frame, from any state in which its first fall can open one, delivers exactly its value, signals once and leaves the decoder idle |
| NecFrames.RunExplained | bare_metal/ir_recv.c:83-188 | over every alternating signal, the decoder's state is justified by the last edges: they form the beginning of a frame as long as the state claims, spelling the bits it holds |
| NecFrames.BusyIsUnderWay | bare_metal/ir_recv.c:100-188 | over every alternating signal, the decoder is in the middle of a frame if and only if an attempt at one is under way in the edges: an earlier edge began it and all edges since fit |
| NecFrames.AssignsExactlyFrames | bare_metal/ir_recv.c:83-188 | over every alternating signal from reset, the last code is assigned at an edge if and only if that edge ends a frame of 67 edges in the signal, and the value is the one they spell, first bit lightest |
| NecFrames.SignalsExactlyFramesAndRepeats | bare_metal/ir_recv.c:126-140 | the ready flag is raised if and only if an edge ends such a frame or a repeat frame, and a repeat leaves the last code as it was |
| NecTiming.CarriesIsFrame | bare_metal/ir_recv.c:25-37 | 67 alternating edges with a leader of 8 to 10 ms and 4 to 5 ms, marks of 350 to 800 us, and spaces of 350 to 800 us at the 0 bits and 1400 to 1900 us at the 1 bits of a code are a frame that spells exactly that code |
| NecTiming.FrameCarries | bare_metal/ir_recv.c:25-37 | and every frame the receiver recognises carries, in these microseconds, the code it spells |
| NecTiming.FrameIsReceived | bare_metal/ir_recv.c:100-182 | for every code and every such frame, met while waiting or after more than 15000 us, the receiver delivers exactly that code, once |
| NecTiming.RepeatIsReceived | bare_metal/ir_recv.c:126-140 | a leader mark and a space of 1800 to 2800 us deliver the last code again |
| NecTiming.SilenceResets | bare_metal/ir_recv.c:100-112 | after more than 15000 us, or when waiting, a fall starts a frame and nothing else counts |
| NecTiming.WaitsForItsEdge | bare_metal/ir_recv.c:105-182 | up to 15000 us a receiver in the middle of a frame ignores the edge it does not wait for |
| NecTiming.LeaderMark | bare_metal/ir_recv.c:115-123 | a leader mark of 8000 to 10000 us goes on, any other ends the frame |
| NecTiming.LeaderSpace | bare_metal/ir_recv.c:126-141 | a leader space of 4000 to 5000 us opens the data, one of 1800 to 2800 us repeats, any other ends the frame |
| NecTiming.BitMark | bare_metal/ir_recv.c:144-152 | a bit mark of 350 to 800 us goes on, any other ends the frame |
| NecTiming.BitSpace | bare_metal/ir_recv.c:155-182 | a bit space of 350 to 800 us stores a 0, one of 1400 to 1900 us a 1 at its weight, the 32nd completes the code, and any other ends the frame and leaves the codes alone |
| NecTiming.AssignedIsCarried | bare_metal/ir_recv.c:83-188 | over every alternating signal from reset, whenever the last code is assigned the last 67 edges carry exactly that code, in microseconds |
| NecTiming.CarriedIsAssigned | bare_metal/ir_recv.c:83-188 | and 67 edges that carry a code and begin a frame always assign it |
| NecResync.SilenceForgets | bare_metal/ir_recv.c:100-103 | what any burst after more than 15 ms of silence makes the receiver do depends on nothing but the last code |
| NecResync.BurstReceived | bare_metal/ir_recv.c:100-187 | a full, repeat or broken-off burst is received right from any decoder state at all |
| NecResync.StreamReceived | bare_metal/ir_recv.c:100-187 | for every stream of such bursts the ready events are exactly the full frames and the repeats, in order, each with its code |
| NecRoundTrip.TransmitCarries | bare_metal/ir_recv.c:25-61 | every choice of timer counts inside the windows, counted at 30 a microsecond from 0x7FFFFFFF down, makes edges that carry the code |
| NecRoundTrip.PassesExactlyCodes | bare_metal/main.c:93-99 | the integrity check accepts a code if and only if each byte is followed by its complement |
| NecRoundTrip.CodeForDecodes | bare_metal/ir_recv.c:233-239 | decoding the code of an address and a command gives the four bytes back, and they pass the check |
| NecRoundTrip.RoundTrip | bare_metal/ir_recv.c:83-188 | for every address, command and timing inside the windows: encode, receive, read and decode gives the same bytes, signalled once, and passes the check |
| NecRoundTrip.PollOnce | bare_metal/main.c:74-102 | a pass of the loop reports if and only if the flag was up, clears it, and says OK if and only if the code has the complemented form |
| NecHandoff.AlwaysInvariant | bare_metal/ir_recv.c:172-177 | the hand-off invariant over every interleaving of interrupts with sleep, poll, clear and read: reads are in order, each returned the newest code, and nothing is outstanding without a sign of it |
| NecHandoff.NothingIsLost | bare_metal/ir_recv.c:222-231 | when the flag is down and the main loop is not between clear and read, it has returned the newest code |
| NecHandoff.ReadsAreSignalled | bare_metal/main.c:77-78 | the number of reads never exceeds the number of ready events |
| NecHandoff.CatchesUp | bare_metal/main.c:74-102 | from any point of any run, going to sleep, one interrupt of any kind, and a poll, clear and read return the newest code |
| NecHandoff.WaitsForInterrupt | bare_metal/main.c:74-77 | after a poll that finds the flag down, the main loop alone goes to sleep and changes nothing: a code that arrives before `__WFI` waits for another interrupt |
| NecDelivery.CompletedAreFrames | bare_metal/ir_recv.c:83-231 | over every interleaving, polling does not disturb reception: the codes completed are exactly those of the frames in the signal, in order |
| NecDelivery.ReturnsOnlyFrames | bare_metal/main.c:74-102 | over every interleaving, what the main loop has returned is 0 or the code of a frame in the signal, and of the latest one as soon as it has caught up |
| NecDuplicates.DuplicateExactly | bare_metal/ir_recv.c:222-231 | in every run, a read is about to return an already returned code if and only if some signal, frame or repeat, with no code completed after it, came between a clear and a read made since, or was a repeat with nothing left to read |
| NecDuplicates.ReadsNewExactly | bare_metal/ir_recv.c:222-231 | over every run: all reads return codes completed after the reads before them if and only if none is made for such a signal |
| NecDuplicates.OnceEach | bare_metal/main.c:77-78 | if nothing signals between a clear and its read, and no repeat signals when all is read, every code is returned at most once |
| NecDuplicates.DeliveredTwice | bare_metal/ir_recv.c:227-231 | from every reachable point between a clear and its read, an edge that signals makes the main loop return the same code twice |
| NecDuplicates.BackToBackReadsTwice | bare_metal/main.c:74-102 | for every two successive frames there is a run from reset that returns the second code twice and the first one never |
| NecDuplicates.DuplicateExists | bare_metal/main.c:74-102 | one such run, on an alternating signal with nominal timing |
| Saturation.ClipQ63ToQ31 | bare_metal/include/arm_math.h:434-439 | the shift-and-compare clip is the exact clamp of every 64-bit value |
| Saturation.QAdd | bare_metal/include/arm_math.h:920-925 | the clamp of the exact sum |
| Saturation.QSub | bare_metal/include/arm_math.h:930-935 | the clamp of the exact difference |
| Saturation.Ssat | bare_metal/include/arm_math.h:620-654 | the doubling loop and the two tests are the exact clamp to any width from 1 to 31 |
| Saturation.Clz | bare_metal/include/arm_math.h:494-508 | the mask loop ends on every value but zero with the exact number of leading zeros |
| Saturation.QAdd8Lanes | bare_metal/include/arm_math.h:668-690 | each byte lane is the saturated sum of the two lanes, whatever the others hold |
| Saturation.QSub8Lanes | bare_metal/include/arm_math.h:695-716 | each byte lane is the saturated difference |
| Saturation.QAdd16Lanes | bare_metal/include/arm_math.h:725-743 | each half is the saturated sum of the two halves |
| Saturation.QSub16Lanes | bare_metal/include/arm_math.h:771-788 | each half is the saturated difference |
| Reciprocal.ErrorSquares | bare_metal/include/arm_math.h:547-554 | the identity of a Newton step: the error squares, plus exactly what the two floors cut off |
| Reciprocal.NewtonStep | bare_metal/include/arm_math.h:547-554 | from any positive start a step stays positive and inside the word, never overestimates, and its relative error is below `e*e + 6/w` (`4/w` after an underestimate), `w` being 2^31 or 2^15 |
| Reciprocal.TwoSteps | bare_metal/include/arm_math.h:545-554 | the composed error bound of both iterations for any table entry |
| Reciprocal.IterateIsNewton31 | bare_metal/include/arm_math.h:549-553 | for a positive argument no conversion of the Q31 loop body loses anything and its clip never acts |
| Reciprocal.IterateNegative31 | bare_metal/include/arm_math.h:549-553 | for a negative argument an iteration is the step cut at 2^31 - 1, and at least doubles the value before the cut |
| Reciprocal.RecipQ31 | bare_metal/include/arm_math.h:516-562 | shift and result for every argument the function is defined on: the normalising shift, two passes from the table entry at the six bits under the leading ones, an underestimate for positive arguments, and the right sign exactly for those |
| Reciprocal.IterateIsPass15 | bare_metal/include/arm_math.h:600-603 | for every signed value the Q15 loop body is the Newton step wrapped to 16 bits |
| Reciprocal.TwoPasses15 | bare_metal/include/arm_math.h:598-604 | for a positive argument neither pass wraps, and the result is the refined underestimate |
| Reciprocal.MirroredStep | bare_metal/include/arm_math.h:598-604 | with argument and value both negative a step stays in range and negative, except in one corner, and its error squares within `2/w` and `4/w` |
| Reciprocal.PassLands | bare_metal/include/arm_math.h:600-603 | a pass from a value that is not negative wraps to a negative one if and only if its product is in `[2^29, 2^30)` or from `3 * 2^29` on |
| Reciprocal.CornerNeverReached | bare_metal/include/arm_math.h:598-604 | no table entry leads to the one pair of negative values whose pass is 0 |
| Reciprocal.NegativePasses15 | bare_metal/include/arm_math.h:598-604 | for a negative argument and any table entry: a negative first pass gives the right sign, the second pass losing nothing; and the sign is right if and only if the first product, or else the second, lies in one of two ranges |
| Reciprocal.NegativeSigns15 | bare_metal/include/arm_math.h:598-604 | a table entry that gives -2^14 the wrong sign, and one that gives it the right sign |
| Reciprocal.RecipQ15 | bare_metal/include/arm_math.h:567-612 | the same for the 16-bit function: the normalising shift and two passes, an underestimate for positive arguments, and for negative ones the right sign if and only if the products of argument and table entry are in the ranges of `RightSign15` |
| Pid.PidQ15.Process | bare_metal/include/arm_math.h:4963-5006 | one sample: the output is the 16-bit value nearest to the last output plus the weighted inputs divided by 2^15, rounded down, saturating or not; the new state array; and no 32- or 64-bit overflow on the way |
| Pid.RunIsHistory | bare_metal/include/arm_math.h:4998-5001 | over every run from reset the state is the last two inputs and the last output, the output being the saturated difference equation |
| Pid.OutputIsNearest | bare_metal/include/arm_math.h:4983-4996 | over every run from reset each output is the 16-bit value nearest to the last output plus the weighted last three inputs |
| Pid.ProcessAll | bare_metal/include/arm_math.h:4963-5006 | called sample by sample from reset, the outputs and the state array are those of the specified run |
| Pid.PositionalGrows | bare_metal/include/arm_math.h:4823-4828 | one sample adds to the positional law exactly what the derived gains weigh |
| Pid.ObeysPositionalLaw | bare_metal/include/arm_math.h:4823-5006 | on every run without saturation the output is the positional PID law, rounded down by less than one unit per sample |
| Park.Mul31IsFloor | bare_metal/include/arm_math.h:5336-5346 | the truncated product is the exact floor except for -2^31 squared, which wraps |
| Park.ParkQ31 | bare_metal/include/arm_math.h:5324-5353 | both outputs are the 32-bit values nearest to the sum and the difference of the floors of the products, whether or not these fit |
| Park.InvParkQ31 | bare_metal/include/arm_math.h:5444-5474 | the same for the inverse transform |
| Park.ForwardRounding | bare_metal/include/arm_math.h:5336-5352 | before saturation the transform is the exact rotation by the angle, less than two units low in `id` and less than one unit off in `iq` |
| Park.InverseRounding | bare_metal/include/arm_math.h:5456-5472 | the same for the inverse rotation |
| Park.ForwardNearest | bare_metal/include/arm_math.h:5336-5352 | the two functions of the round trip are those nearest values |
| Park.InverseNearest | bare_metal/include/arm_math.h:5456-5472 | the same for the inverse transform |
| Park.ForwardCut | bare_metal/include/arm_math.h:5336-5352 | saturating or not, each output is the exact rotation cut to the 32-bit range, less than two units low in `id` and less than one unit off in `iq` |
| Park.InverseCut | bare_metal/include/arm_math.h:5456-5472 | the same for the inverse transform |
| Park.RoundTrip | bare_metal/include/arm_math.h:5324-5474 | where nothing clips or wraps, the inverse of the transform is the vector scaled by `sin*sin + cos*cos`, within 4 units in one coordinate and 5 in the other |
| Park.CircleRoundTrip | bare_metal/include/arm_math.h:5324-5474 | for every vector in a circle six units inside the range and every sine and cosine in the unit circle, nothing clips or wraps and the vector comes back |
| Park.OutsideSaturates | bare_metal/include/arm_math.h:5349-5352 | for every vector longer than 2^31 + 4 there is an angle, a sine and cosine whose vector is between 2^31 - 4 and 2^31 long, at which the transform saturates |
| Park.OutsideFails | bare_metal/include/arm_math.h:5324-5474 | for every vector longer than 2^31 + 18 there is such an angle at which it does not come back within the bounds of the round trip |
| Interpolation.Fields | bare_metal/include/arm_math.h:5614-5629 | the two masked fields are quotient and remainder of the argument read as an unsigned word; the index is never negative |
| Interpolation.NoOverflow | bare_metal/include/arm_math.h:5636-5642 | the terms, their sum and its doubling fit, even when both neighbours are -2^31 |
| Interpolation.CellError | bare_metal/include/arm_math.h:5625-5643 | inside a cell the result is less than 5 units below and at most 1 above the exact rational interpolant |
| Interpolation.AboveTable | bare_metal/include/arm_math.h:5616-5619 | exactly when the last branch is taken, in terms of the unsigned argument, and that it gives the last entry |
| Interpolation.BelowReadsTheEnd | bare_metal/include/arm_math.h:5616-5633 | in a table of any length a negative argument reads nothing below entry 2048 but the last entry, so the first entry never matters in a table of more than one |
| Interpolation.BelowTable | bare_metal/include/arm_math.h:5620-5623 | a negative argument gives the last entry of a table of up to 2049 entries, so the first one if and only if the two are equal |
| Circular.OffsetWidth | bare_metal/include/arm_math.h:6065 | the stored 16-bit offset is exact if and only if the buffer has at most 2^16 elements |
| Circular.Forward | bare_metal/include/arm_math.h:6055-6058 | with an increment between 0 and the length the offset is `(start + n * inc) mod L`, always inside |
| Circular.InBoundsExactly | bare_metal/include/arm_math.h:6047-6062 | for every increment, negative ones and ones beyond the length included, the exact condition under which all accesses of a block stay inside the buffer |
| Circular.CircularWrite | bare_metal/include/arm_math.h:6028-6066 | for every increment that keeps the accesses inside, the buffer and the 16-bit offset after the loop; for increments up to the length sample `n` goes to slot `(start + n * inc) mod L` |
| Circular.CircularRead | bare_metal/include/arm_math.h:6073-6123 | for every increment that keeps the accesses inside, the destination, with its wrapping pointer, and the offset after the loop |
| Circular.WriteLeaves | bare_metal/include/arm_math.h:6047-6062 | source element `i * srcInc` is left in slot `(w + i * inc) mod L`, unless a later sample of the block goes there |
| Circular.DestinationWraps | bare_metal/include/arm_math.h:6101-6107 | with an increment that divides the length and the distance from the base, sample `n` goes to the place `n` increments on modulo the length, always inside the destination |
| Circular.StaysExactly | bare_metal/include/arm_math.h:6101-6107 | a rising destination pointer stays inside for good if and only if its increment divides both |
| Circular.ReadLeaves | bare_metal/include/arm_math.h:6096-6119 | each sample of the last round is left in its place modulo the destination, from its slot modulo L, and nothing outside the destination is touched |
| Circular.WriteBlocks | bare_metal/include/arm_math.h:6028-6066 | calls that hand the returned offset on compute the chain of blocks and offsets the next rows are about |
| Circular.WriteOffsetIsTotal | bare_metal/include/arm_math.h:6040-6065 | over any sequence of block writes into at most 2^16 elements the 16-bit offset is the start plus all samples written, mod L |
| Circular.BlocksAreHistory | bare_metal/include/arm_math.h:6028-6066 | over any sequence of block writes into at most 2^16 elements, each of the last L samples of the whole stream is in the slot of its number |
| Circular.FullBufferIsRotated | bare_metal/include/arm_math.h:6028-6066 | once L samples are written, L being at most 2^16, the buffer from the write offset on is exactly the last L, in order |
| Circular.DelayLine | bare_metal/include/arm_math.h:6028-6123 | for L up to 2^16, reading `n <= d <= L` samples from `(w - d) mod L` gives the stream delayed by `d` |
| Circular.HistoryExactly | bare_metal/include/arm_math.h:6065 | the buffer holds the end of every stream of blocks if and only if its length is at most 2^16 |
| Circular.DelayLineFails | bare_metal/include/arm_math.h:6028-6123 | for every longer buffer and every start, two block writes after which neither the rotated buffer nor the delay line read from it is the stream |
| AdPacket.ParseSerialise | bare_metal/lpc21isp/adprog.c:162-206 | a packet parses back to the same command, 32-bit address and data, for every payload of up to 250 bytes |
| AdPacket.SerialiseParse | bare_metal/lpc21isp/adprog.c:162-206 | nothing else parses to a command than the packet of that command |
| AdPacket.SumsToZero | bare_metal/lpc21isp/adprog.c:175-206 | the bytes from the length field through the checksum sum to 0 mod 256 |
| AdPacket.DamageIsDetected | bare_metal/lpc21isp/adprog.c:162-206 | changing any one byte of a packet, by any amount, makes it unacceptable |
| AdPacket.FillHeader | bare_metal/lpc21isp/adprog.c:162-195 | the start bytes, length, command and address are the wire header, and the checksum is its sum although the address is added up in the opposite order |
| AdPacket.CopyData | bare_metal/lpc21isp/adprog.c:197-203 | the loop copies the data and carries the running checksum over it |
| AdPacket.FormPacket | bare_metal/lpc21isp/adprog.c:125-207 | fails exactly on the three bad-argument cases, leaving the packet untouched; otherwise the bytes that will be sent are, one by one, 7, 14, the length, the command, the address high byte first, the data, and a byte that makes the sum 0 |
| AdDownload.EffectIdempotent | bare_metal/lpc21isp/adprog.c:221-248 | carrying out a command twice is carrying it out once, so repeated packets are harmless |
| AdDownload.AckMeansDone | bare_metal/lpc21isp/adprog.c:226-241 | an ACK is heard if and only if request and reply arrive whole, and then the command is done; otherwise it is done or not, never partly |
| AdDownload.SendPacket | bare_metal/lpc21isp/adprog.c:215-252 | success if and only if one of the first three attempts is acknowledged, at most three being made; and the memory afterwards |
| AdDownload.ChunksCover | bare_metal/lpc21isp/adprog.c:286-300 | the payloads concatenate to the image, in the least number of packets |
| AdDownload.ChunkAt | bare_metal/lpc21isp/adprog.c:286-300 | packet `i` carries bytes `250*i` onwards to the address that much further: 1 to 250 bytes, contiguous, without overlap |
| AdDownload.ChunksStore | bare_metal/lpc21isp/adprog.c:286-300 | writing all packets stores the image at its address |
| AdDownload.Attempts | bare_metal/lpc21isp/adprog.c:219-248 | the attempts for `n` packets are between `n` and `3 * n` |
| AdDownload.FormAndSend | bare_metal/lpc21isp/adprog.c:265-266 | forming and sending one packet, against the pattern of losses |
| AdDownload.Write | bare_metal/lpc21isp/adprog.c:278-301 | succeeds if and only if every packet gets through, and then all are carried out; a failure leaves the effect of the first few; and the exact number of attempts made |
| AdDownload.CutOffHolds | bare_metal/lpc21isp/adprog.c:286-300 | a write that is cut off leaves a whole number of packets, or all the data, and nothing else |
| AdDownload.NoThreeLost | bare_metal/lpc21isp/adprog.c:221-248 | a line on which no three attempts in a row fail acknowledges every packet |
| AdDownload.Download | bare_metal/lpc21isp/adprog.c:310-324 | for every pattern of losses a successful return leaves, byte for byte, exactly the image at address 0, or exactly what lies beyond 0x80000 of a longer one; success if and only if every packet is acknowledged within three attempts; at most three attempts for each packet tried; and a failure leaves the old contents or some first packets of the same bytes |
| Nvic.Addressing | bare_metal/include/core_cm0plus.h:607-609 | the macros give lane, word index and bounds for interrupts -8 to 31, so distinct interrupts have distinct byte lanes |
| Nvic.SetLaneBytes | bare_metal/include/core_cm0plus.h:688-692 | the read-modify-write changes one byte of the word, to the priority's two low bits at its top |
| Nvic.GetLaneIsByte | bare_metal/include/core_cm0plus.h:711-713 | a read gives the top two bits of one byte |
| Nvic.GetSet | bare_metal/include/core_cm0plus.h:685-714 | a priority is read back mod 4, and no other interrupt's priority changes |
| Nvic.WordsRefineMap | bare_metal/include/core_cm0plus.h:685-714 | over every sequence of calls the packed words behave as a plain map of the last priority set |
| Nvic.Registers.SetPriority | bare_metal/include/core_cm0plus.h:685-693 | the update of the register arrays is the abstract one: this interrupt reads back the priority mod 4, every other one is unchanged |
| Nvic.Registers.GetPriority | bare_metal/include/core_cm0plus.h:707-714 | the read is the abstract one |
| LibUtil.MemCpy | bare_metal/libutil.c:6-15 | the storage after a forward copy, overlapping or not |
| LibUtil.CopiedByte | bare_metal/libutil.c:6-15 | the byte of the old storage every destination byte ends up with: an overlap from below repeats |
| LibUtil.CopiedElsewhere | bare_metal/libutil.c:6-15 | bytes outside the destination are unchanged |
| LibUtil.MoveExactly | bare_metal/libutil.c:6-15 | a forward copy in one buffer is a correct move if and only if the destination is not above the source's start, or does not overlap, or the source already repeats with the distance |
| LibUtil.MemCmp | bare_metal/libutil.c:29-42 | the difference of the first bytes that differ, 0 if none do |
| LibUtil.CompareFirst | bare_metal/libutil.c:29-42 | the result is 0 if and only if the buffers are equal, and otherwise the difference at the first byte that differs |
| LibUtil.StrLen | bare_metal/libutil.c:45-53 | the length of the string before its terminator |
| LibUtil.StrAt | bare_metal/libutil.c:45-53 | a byte of a string is NUL if and only if it is the one after its last |
| LibUtil.StrCpy | bare_metal/libutil.c:56-64 | writes the string and its terminator and nothing else, for strings that do not overlap |
| LibUtil.StrCmp | bare_metal/libutil.c:82-89 | the lexicographic comparison of the two strings on unsigned bytes |
| LibUtil.CopyComparesEqual | bare_metal/libutil.c:56-89 | what `strcpy` writes is read back as the same string and compares equal to it |
| LibUtil.OrderIsCompare | bare_metal/libutil.c:29-89 | `strcmp` is `memcmp` over the shorter string and its terminator |
| LibUtil.OrderFirst | bare_metal/libutil.c:82-89 | the result is the difference at the first place where the strings, terminators included, differ |
| LibUtil.OrderProperties | bare_metal/libutil.c:82-89 | zero exactly for equal strings, and swapping the arguments negates the result |
| LibUtil.OrderTransitive | bare_metal/libutil.c:82-89 | the order of strings is transitive |

## Left out

- NecRoundTrip.PollOnce: does not model printing; what is printed is the report it returns. `print_hex32`, the UART, the LEDs and SysTick are not part of this model.
- NecFrames.AssignsExactlyFrames: assumes that edges alternate, as those of a real pin do; `StepKeepsBound` and `OnlyCompleteFramesAssign` hold for any edge flags, both at once or none.
- NecHandoff.AlwaysInvariant: an interrupt is one atomic step, since the main loop cannot run inside it; the poll, the clear and the read are separate steps.
- NecHandoff.CatchesUp: the main loop sleeps in `__WFI` until some interrupt comes, so catching up needs one; that SysTick provides it a hundred times a second is not part of the model.
- NecDecoder.WindowInCounts: the counter is taken to show a 31-bit value; what it does after reaching zero is not modelled. Thirty counts a microsecond is the value for the 30 MHz core clock the source names; it computes it from `SystemCoreClock`.
- `IR_Init`, the pin-interrupt flag registers and all other hardware set-up.
- Reciprocal.RecipQ31: zero (the leading-zero loop never ends) and the most negative value (its negation overflows) are excluded; table entries may be any positive values, the real table is not part of this model.
- Reciprocal.RecipQ15: excludes the same two arguments; for negative ones the accuracy of a pass is stated where its value is negative (`MirroredStep`), and nothing where the first pass leaves a positive value.
- Saturation.Ssat: widths 0 and 32 are excluded, since the loop bound wraps for the one and `posMax` overflows for the other.
- Saturation.Clz: not defined on zero, on which the loop does not end.
- Pid.ObeysPositionalLaw: the gains must derive exactly from Kp, Ki and Kd; `arm_pid_init_q15`, which derives them, is only declared in the header. The Q31 and floating-point controllers.
- Circular.CircularWrite, Circular.CircularRead: buffers or increments of more than 2^30, whose sum may overflow, accesses outside the buffer, and a source or destination inside the circular buffer itself.
- Circular.DelayLine: the destination is long enough not to wrap; `ReadLeaves` covers one that wraps.
- Circular.DestinationWraps: destination increments that are not positive, with which the pointer never meets its end, are covered by `CircularRead` only.
- AdDownload.Download: images that do not fit 32-bit addresses, `AnalogDevicesSync`, real serial I/O and replies that arrive in a later packet's window. The paths that end the program are a false result. The device acts on and acknowledges only packets that parse, an erase empties its memory, a request is damaged in one byte at most, and the line never turns another reply into an ACK.
- LibUtil.StrCpy: overlapping strings; the size of C's integers, which bounds the length of every buffer.
- Nvic.Addressing: core interrupts below -8, for which the index macro leaves the array, and the other NVIC calls.
- `memset`, `strncpy`, `strncmp`, `clip_q31_to_q7`, `clip_q31_to_q15`, `clip_q63_to_q15`, `mult32x64`, the halving and exchanging lane operations, Clarke transforms and bilinear interpolation.
- Floating-point kernels, the headers of other cores, and `lpcterm.c`.
