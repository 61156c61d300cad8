# Verified models of pkgsrc-wip patches

A few of the patches in this tree carry whole algorithms rather than small portability fixes. This
project models those algorithms in Dafny and proves what they are for. Code that updates state in
place is modelled by methods on classes and arrays, each tied to a specification function; what the
code promises is then proved about those functions, over every input, run or interleaving. Kernels,
devices and linkers appear as parameters that say what they may answer.

| file | what it models |
|---|---|
| `KqueuePeriod.dfy` | how a timer rate becomes a kevent period |
| `KqueueProtocol.dfy` | the kqueue timing module as a transition system, its invariant, and the abstract timer that both of its back ends refine |
| `KqueueBackends.dfy` | the machine both back ends share over every run, whatever the kernel refuses |
| `KqueueTimer.dfy` | the same module as reference-counted objects in a container; each method takes the step of the protocol |
| `BufferClear.dfy` | lowering a pattern fill of a GPU buffer to dword fills by one of two engines |
| `AtomicCounter.dfy` | fetch-and-add and decrement-and-test on a counter shared by threads |
| `FloatPrinter.dfy` | printing a double as mantissa and decimal exponent |
| `SdpTag.dfy` | the parse, print and compare check of an SDP crypto tag (section 9.1 of RFC 4568) |
| `DispatchStub.dfy` | the position-independent i386 dispatch stub, run by an interpreter over bytes and wrapping words |
| `FdSet.dfy` | a descriptor set with a cached count |
| `DrmProbe.dfy` | probing for DRM devices without duplicates |
| `ProcessIterator.dfy` | the NetBSD process iterator |
| `L3Affinity.dfy` | pinning a thread to an L3 cache and asking which cache it is pinned to |
| `HitSelection.dfy` | choosing the alignments of a read to print |
| `ExitHandlers.dfy` | clean-up at exit from an atexit list and from flag-guarded destructors |
| `Decimal.dfy`, `Arithmetic.dfy`, `Places.dfy`, `Option.dfy` | decimal notation, facts about quotients and products, the places of a list at which something holds, an option type |

## Where the code does not do what it seems to promise

The models follow the code. Each property below fails for some inputs, and is proved with the exact
condition under which it holds.

- A kqueue timer's `period` and its registered event fall out of step for an accepted rate above
  10^9 (above 1000 without NOTE_NSECONDS): the period scales to zero although an event is registered.
  The advertised maximum rate allows such rates (`AcceptedRateKeepsStepIff`,
  `AdvertisedMaximumBreaksStep`). A first enable that the kernel refuses, and a refused change of
  rate, do so too (`StepKeepsInStep`).
- Asking for the L3 cache of a thread looks at as many CPUs as the cpuset has bytes, not bits, so
  caches whose CPUs lie above that are not seen (`PinThenAsk`, `QueryRightIff`).
- The best-score scan has no test for the end of the list and leaves it when all scores are equal; a
  single alignment is enough (`KeepBest`, `SelectBest`).
- A mantissa that rounds up to ten is printed as "10E" and the exponent, although a comment asks for
  the canonical form (`CanonicalPrintIff`, `NotCanonicalExample`).
- The process iterator reuses its buffer within a call, so a block shorter than announced is followed
  by bytes of an earlier process, which change its entry or hide it. Exactly when no block leaves such
  bytes showing is the listing the intended one (`ListingIsOwnIff`, `StaleBytesExample`).
- Each library cleans up the same things in either form, but the order between the two libraries is
  the reverse of first use with atexit and fixed at link time with destructors (`SameTraceIff`).
- The comment at the SDP tag check speaks of one to nine digits; a tag with a superfluous leading zero
  is refused (`AcceptedWithinGrammar`).
- In the signed OSX form of fetch-and-add the final subtraction is one of ints, and is in range exactly
  when the addition did not wrap (`SignedFormExactIff`).

## Model

| member | source | states |
|---|---|---|
| `KqueueProtocol.StepKeepsInStep` | asterisk11-vicidial/patches/patch-res_res__timing__kqueue.c:203-351 | one operation on a timer whose fields agree with its kernel queue leaves them in agreement if and only if: an accepted non-zero rate scales to a non-zero period, a refused one equals the old period, and a first enable is accepted |
| `KqueueProtocol.WorldStepKeepsInStep` | asterisk11-vicidial/patches/patch-res_res__timing__kqueue.c:99-351 | the same equivalence for the whole set of timers, with open and close, whichever timer is addressed |
| `KqueueProtocol.EnableRegisters` | asterisk11-vicidial/patches/patch-res_res__timing__kqueue.c:31-40 | both ways of enabling (user event added and triggered, read event on a pipe at end of file) leave the same single active event, or nothing if the kernel refuses |
| `KqueueProtocol.RateEffect` | asterisk11-vicidial/patches/patch-res_res__timing__kqueue.c:225-234 | an accepted rate registers one event under the timer's handle, in the finest unit whose count of 10^9 / rate ns does not overflow, with the longest period of which `rate` fit into one second, or the limit of the type; the field holds the same number and no other event changes |
| `KqueueProtocol.StopEffect` | asterisk11-vicidial/patches/patch-res_res__timing__kqueue.c:217-224 | rate 0 removes that event and clears the field; nothing happens if the field is zero already; an error is logged exactly if the event is missing |
| `KqueueProtocol.RefusedRateEffect` | asterisk11-vicidial/patches/patch-res_res__timing__kqueue.c:228-239 | a refused rate is logged and leaves the queue alone, but the field is set all the same |
| `KqueueProtocol.EnableEffect` | asterisk11-vicidial/patches/patch-res_res__timing__kqueue.c:309-318 | enabling sets the flag, and if accepted registers one active event: a user event named by the timer's address, or a read event on its pipe; nothing happens if the flag is set already |
| `KqueueProtocol.DisableEffect` | asterisk11-vicidial/patches/patch-res_res__timing__kqueue.c:337-346 | disabling clears the flag and removes that event; an error is logged exactly if it is missing |
| `KqueueProtocol.AckEffect` | asterisk11-vicidial/patches/patch-res_res__timing__kqueue.c:260-290 | acknowledging sets the timer's count to zero, reports what exceeds the quantity, and changes nothing else |
| `KqueueProtocol.OpenEffect` | asterisk11-vicidial/patches/patch-res_res__timing__kqueue.c:99-128 | opening fails exactly without memory, a queue or the pipe it needs; otherwise a timer with no rate, no mode, an empty queue and one reference is filed and its handle returned |
| `KqueueProtocol.UnknownEffect` | asterisk11-vicidial/patches/patch-res_res__timing__kqueue.c:212-214 | an unknown handle is an error for every request but get_event, and changes nothing |
| `KqueueProtocol.TwoSlotsSuffice` | asterisk11-vicidial/patches/patch-res_res__timing__kqueue.c:250-260 | whatever the kernel has refused before, any event list of two entries it may return holds every pending event |
| `KqueueProtocol.AckLogsMissed` | asterisk11-vicidial/patches/patch-res_res__timing__kqueue.c:270-290 | whatever the kernel has refused before and in whatever order it lists the events, acknowledging logs the expirations beyond the quantity and nothing else: neither "Spurious" branch is taken |
| `KqueueProtocol.ReadableIff` | asterisk11-vicidial/patches/patch-res_res__timing__kqueue.c:24-94 | for a timer in step the descriptor is readable exactly when expirations are pending or continuous mode is on, for either back end |
| `KqueueProtocol.ContinuousSurvivesAck` | asterisk11-vicidial/patches/patch-res_res__timing__kqueue.c:246-295 | acknowledging never consumes the continuous event, however many events are read: where it is registered the timer stays readable, which for a timer in step is as long as continuous mode is on |
| `KqueueProtocol.StepRefinesAbstract` | asterisk11-vicidial/patches/patch-res_res__timing__kqueue.c:203-383 | on either back end an operation on a timer in step leaves it in step and is the operation of an abstract timer (period, unread expirations, continuous switch; same state, result and messages) if and only if the kernel accepts a new rate, which scales to a non-zero period, and the event of a first enable |
| `KqueueProtocol.WorldStepRefinesAbstract` | asterisk11-vicidial/patches/patch-res_res__timing__kqueue.c:99-383 | the same equivalence for the set of timers, where opening also needs memory and, for the pipe back end, a pipe |
| `KqueueProtocol.RunInStepIff` | asterisk11-vicidial/patches/patch-res_res__timing__kqueue.c:99-383 | for every run: fields and queues agree at every point if and only if every operation, where it occurs, meets the condition of `StepKeepsInStep` |
| `KqueueProtocol.RunIsAbstractIff` | asterisk11-vicidial/patches/patch-res_res__timing__kqueue.c:99-383 | for every run: every operation is the abstract one and leaves the timers in step if and only if the kernel plays its part in every operation, where it occurs |
| `KqueueProtocol.RunRefinesAbstract` | asterisk11-vicidial/patches/patch-res_res__timing__kqueue.c:99-383 | so after every run of that kind (`RunIsAbstractIff` says exactly which) every timer is in step and the module is the abstract one |
| `KqueueProtocol.AnswersOverRuns` | asterisk11-vicidial/patches/patch-res_res__timing__kqueue.c:203-351 | over every run of that kind each result and each message is the abstract one |
| `KqueueProtocol.MessagesOverRuns` | asterisk11-vicidial/patches/patch-res_res__timing__kqueue.c:203-351 | for every run the kernel allows: as long as the operations so far met the condition of `RunInStepIff`, each message reports missed expirations or names a failure of the system, so no delete names a missing event, also after failed opens and whatever is refused next |
| `KqueueProtocol.AbsContinuousIsLastChange` | asterisk11-vicidial/patches/patch-res_res__timing__kqueue.c:297-351 | after any run the continuous switch is on exactly when the last enable, disable or open of that handle was an enable |
| `KqueueProtocol.FlagIsLastChange` | asterisk11-vicidial/patches/patch-res_res__timing__kqueue.c:297-351 | in every run the kernel allows, refused enables and failed opens included, the flag of a timer is set exactly when the last enable, disable or open of its handle was an enable |
| `KqueueProtocol.GetEventOverRuns` | asterisk11-vicidial/patches/patch-res_res__timing__kqueue.c:353-383 | in every run the kernel allows, whatever it refuses, get_event answers Continuous exactly when the timer exists and the last change of its mode was an enable, across any acknowledgements and rate changes between |
| `KqueueProtocol.AcceptedRateKeepsStepIff` | asterisk11-vicidial/patches/patch-res_res__timing__kqueue.c:203-244 | where pointers have 32 bits or more, an accepted rate keeps fields and queue in agreement exactly up to 10^9, or 1000 without NOTE_NSECONDS |
| `KqueueProtocol.MaxRateIsLargest` | asterisk11-vicidial/patches/patch-res_res__timing__kqueue.c:384-389 | the advertised maximum is the largest rate within both 2^32 - 1 and the limit of the period's type |
| `KqueueProtocol.AdvertisedMaximumBreaksStep` | asterisk11-vicidial/patches/patch-res_res__timing__kqueue.c:384-389 | a rate within the advertised maximum leaves period zero with a timer event registered, which a later request for rate 0 does not remove |
| `KqueueBackends.BackendsAgree` | asterisk11-vicidial/patches/patch-res_res__timing__kqueue.c:24-94 | for every two runs the kernel allows, one on each back end, with the same requests and the same decisions of the kernel where it is asked for one: the same results, messages, open timers and readiness, refusals, failed opens and rates that scale to zero included |
| `KqueueBackends.SameAnswersDecideAlike` | asterisk11-vicidial/patches/patch-res_res__timing__kqueue.c:24-94 | its condition holds when the kernel gives the same answers to each operation, but for descriptors, addresses and the events in a list |
| `KqueueBackends.GoodRunsDecideAlike` | asterisk11-vicidial/patches/patch-res_res__timing__kqueue.c:24-94 | and when both kernels play their part throughout |
| `KqueueBackends.StepRefinesShared` | asterisk11-vicidial/patches/patch-res_res__timing__kqueue.c:203-383 | whatever the kernel answers, an operation on either back end is that of one machine that mentions neither (same registered rate timer, signal, flag, result and messages), and no event but the two of the timer is ever registered |
| `KqueueBackends.RunRefinesShared` | asterisk11-vicidial/patches/patch-res_res__timing__kqueue.c:99-383 | so after every run the kernel allows the module is that machine |
| `KqueueBackends.AnswersAreShared` | asterisk11-vicidial/patches/patch-res_res__timing__kqueue.c:99-383 | and gives its answers and messages |
| `KqueueBackends.NothingIsSpurious` | asterisk11-vicidial/patches/patch-res_res__timing__kqueue.c:270-289 | in every run the kernel allows, no event is ever reported as spurious |
| `KqueueBackends.SharedReadableIff` | asterisk11-vicidial/patches/patch-res_res__timing__kqueue.c:24-94 | whatever the kernel has refused, the descriptor is readable exactly when the rate timer has fired or the continuous event is registered |
| `KqueuePeriod.ScalePeriod` | asterisk11-vicidial/patches/patch-res_res__timing__kqueue.c:141-201 | the branch cascade finds the period in the finest available unit that does not overflow, clamped in milliseconds only |
| `KqueuePeriod.FinestFitIsUnique` | asterisk11-vicidial/patches/patch-res_res__timing__kqueue.c:136-140 | that description fixes period and unit uniquely, for every build and every period |
| `KqueuePeriod.ScaledPeriodFitsRate` | asterisk11-vicidial/patches/patch-res_res__timing__kqueue.c:225-228 | the scaled period is between 0 and the limit, and `rate` of them fit into one second (the other bound is `ScaledPeriodIsLongest`) |
| `KqueuePeriod.ScaledPeriodIsLongest` | asterisk11-vicidial/patches/patch-res_res__timing__kqueue.c:141-201 | one unit more, and `rate` periods would take more than 10^9 ns, unless the period is the limit of its type |
| `KqueuePeriod.FinestUnitFor` | asterisk11-vicidial/patches/patch-res_res__timing__kqueue.c:163-196 | which unit is used, for every build and rate: exactly one condition on 10^9 / rate, its thousandth and the limit holds |
| `KqueuePeriod.ScaledPeriodIsZeroIff` | asterisk11-vicidial/patches/patch-res_res__timing__kqueue.c:225-228 | the scaled period is zero exactly for rates above 10^9, or above 1000 without NOTE_NSECONDS |
| `KqueueTimer.Timer.Consume` | asterisk11-vicidial/patches/patch-res_res__timing__kqueue.c:260 | reading an event list resets exactly the counts of the timer events in it |
| `KqueueTimer.Timer.ChangeRate` | asterisk11-vicidial/patches/patch-res_res__timing__kqueue.c:217-239 | the new fields, queue and messages are those of the protocol step for a rate change, which `RateEffect`, `StopEffect` and `RefusedRateEffect` spell out; continuous mode and references are untouched |
| `KqueueTimer.Timer.Sample` | asterisk11-vicidial/patches/patch-res_res__timing__kqueue.c:260-290 | likewise for sampling: queue, status and messages in list order |
| `KqueueTimer.Timer.TurnOn` | asterisk11-vicidial/patches/patch-res_res__timing__kqueue.c:309-318 | likewise for enabling |
| `KqueueTimer.Timer.TurnOff` | asterisk11-vicidial/patches/patch-res_res__timing__kqueue.c:337-346 | likewise for disabling |
| `KqueueTimer.TimingModule.InitContinuousEvent` | asterisk11-vicidial/patches/patch-res_res__timing__kqueue.c:26-69 | with a pipe, the read end is stored and at end of file afterwards; nothing changes for user events or a failed pipe |
| `KqueueTimer.TimingModule.Open` | asterisk11-vicidial/patches/patch-res_res__timing__kqueue.c:99-128 | opening is the protocol step, each of the three failures included; the container ends with the only reference to a new object |
| `KqueueTimer.TimingModule.Close` | asterisk11-vicidial/patches/patch-res_res__timing__kqueue.c:128-134 | closing is the protocol step and the timer is left with no reference |
| `KqueueTimer.TimingModule.SetRate` | asterisk11-vicidial/patches/patch-res_res__timing__kqueue.c:203-244 | the whole module takes exactly the protocol step of the timer looked up, and the reference taken is given back on every path |
| `KqueueTimer.TimingModule.Ack` | asterisk11-vicidial/patches/patch-res_res__timing__kqueue.c:246-295 | likewise, failed sampling included |
| `KqueueTimer.TimingModule.EnableContinuous` | asterisk11-vicidial/patches/patch-res_res__timing__kqueue.c:297-323 | likewise |
| `KqueueTimer.TimingModule.DisableContinuous` | asterisk11-vicidial/patches/patch-res_res__timing__kqueue.c:325-351 | likewise |
| `KqueueTimer.TimingModule.GetEvent` | asterisk11-vicidial/patches/patch-res_res__timing__kqueue.c:353-383 | the answer is that of the protocol step, and nothing changes |
| `KqueueTimer.Perform` | asterisk11-vicidial/patches/patch-res_res__timing__kqueue.c:99-383 | any operation on the objects, with time passing among them, is the protocol step |
| `KqueueTimer.Replay` | asterisk11-vicidial/patches/patch-res_res__timing__kqueue.c:99-383 | objects built from nothing by any run the kernel allows hold the protocol's state and give its answers, none of which reports a spurious event; if every operation meets its condition they are in step and their messages explained; over a good run they are the abstract module |
| `BufferClear.SiContext.SiPipeClearBuffer` | MesaLib-dfbsd-meson/patches/patch-src_gallium_drivers_radeonsi_si__compute__blit.c:93-143 | for every pattern of 1, 2, 4, 8, 12 or 16 bytes the range holds the pattern over and over from its start, every other byte is unchanged, the fills issued tile the range, the wide fill is used exactly if some byte differs from that of the first dword at the same place, and other fills go to the engine of `SiClearBuffer` |
| `BufferClear.SiContext.SiClearBuffer` | MesaLib-dfbsd-meson/patches/patch-src_gallium_drivers_radeonsi_si__compute__blit.c:44-88 | the memory left is the dword repeated from the offset (aligned or not) for every size, whichever engine is chosen; the whole-dword fill and the tail of under four bytes tile the range; the engine is SDMA exactly if there is an SDMA ring, the buffer is not sparse, the offset is a multiple of 4, and the size is above 32768 or the buffer not referenced |
| `BufferClear.SiContext.BlitterClearBuffer` | MesaLib-dfbsd-meson/patches/patch-src_gallium_drivers_radeonsi_si__compute__blit.c:114-121 | a fill with several dwords in turn leaves the whole pattern repeated from the start of the range |
| `BufferClear.SiContext.DwordsDuplicated` | MesaLib-dfbsd-meson/patches/patch-src_gallium_drivers_radeonsi_si__compute__blit.c:101-108 | the compare loop says whether all dwords of the pattern are equal |
| `BufferClear.SiContext.WriteTail` | MesaLib-dfbsd-meson/patches/patch-src_gallium_drivers_radeonsi_si__compute__blit.c:87-88 | the tail holds the first bytes of the dword, and nothing else changes |
| `BufferClear.FillDwords` | MesaLib-dfbsd-meson/patches/patch-src_gallium_drivers_radeonsi_si__compute__blit.c:65-71 | a dword engine leaves the dword repeated over the range, and nothing else changes |
| `BufferClear.ExpandedRepeatsPattern` | MesaLib-dfbsd-meson/patches/patch-src_gallium_drivers_radeonsi_si__compute__blit.c:126-140 | repeating the expanded dword is repeating the pattern, at every position, also for 8, 12 and 16 byte patterns of equal dwords |
| `BufferClear.AllDwordsEqualIff` | MesaLib-dfbsd-meson/patches/patch-src_gallium_drivers_radeonsi_si__compute__blit.c:103-108 | all dwords of a pattern are equal exactly if each byte is that of the first dword at the same place |
| `BufferClear.RepeatedIsModulo` | MesaLib-dfbsd-meson/patches/patch-src_gallium_drivers_radeonsi_si__compute__blit.c:97-98 | the k-th byte of a repeated pattern is the one at k modulo its length |
| `BufferClear.RepeatedFromAligned` | MesaLib-dfbsd-meson/patches/patch-src_gallium_drivers_radeonsi_si__compute__blit.c:67-68 | the tail continues the dword pattern: starting again at a multiple of four changes nothing |
| `BufferClear.TilesPartition` | MesaLib-dfbsd-meson/patches/patch-src_gallium_drivers_radeonsi_si__compute__blit.c:44-88 | a tiling touches each byte of its range exactly once and no other byte |
| `AtomicCounter.Cell.FetchAdd` | asterisk11-vicidial/patches/patch-include_asterisk_lock.h:47-56 | returns the value before the addition for every addend, and the counter holds the wrapped sum |
| `AtomicCounter.Cell.DecAndTest` | asterisk11-vicidial/patches/patch-include_asterisk_lock.h:64-73 | true exactly when the counter is zero afterwards |
| `AtomicCounter.FetchAddIsExact` | asterisk11-vicidial/patches/patch-include_asterisk_lock.h:48-51 | new value minus addend is the old value under 32-bit and 64-bit wrap-around; without overflow the counter holds the sum |
| `AtomicCounter.WrapIsModulo` | asterisk11-vicidial/patches/patch-include_asterisk_lock.h:50 | wrapping is reduction modulo the number of machine integers |
| `AtomicCounter.IntRanges` | asterisk11-vicidial/patches/patch-include_asterisk_lock.h:47-56 | the ranges of int for the two sizes |
| `AtomicCounter.SignedFormExactIff` | asterisk11-vicidial/patches/patch-utils_extconf.c:17-27 | with a signed atomic the subtraction stays in range exactly when the addition did; the form before the correction is right for no addend but zero |
| `AtomicCounter.StepKeepsLinearized` | asterisk11-vicidial/patches/patch-include_asterisk_lock.h:47-73 | one step of any thread, the atomic addition or the subtraction after it, keeps the counter equal to the sum of the calls so far and every result equal to that of running the calls one at a time |
| `AtomicCounter.EveryRunIsLinearized` | asterisk11-vicidial/patches/patch-include_asterisk_lock.h:40-56 | so for any threads, programs and interleaving: every result is that of the sequential order of the atomic steps, which keeps each thread's own order |
| `AtomicCounter.FetchedBefore` | asterisk11-vicidial/patches/patch-include_asterisk_lock.h:40-56 | the result a thread holds for a fetch-and-add is what all calls before it, by whichever thread, had made of the start, modulo 2^32 or 2^64 and exactly if that is an int |
| `AtomicCounter.ZeroIsSeenLast` | asterisk11-vicidial/patches/patch-include_asterisk_lock.h:64-73 | at any moment of any interleaving of n threads counting down from n, a thread that has seen zero made the n-th and last decrement |
| `AtomicCounter.ExactlyOneSeesZero` | asterisk11-vicidial/patches/patch-include_asterisk_lock.h:64-73 | when all n are done exactly one saw zero, the last to decrement, and the counter is zero |
| `AtomicCounter.IdentifiersAreUniqueIff` | asterisk11-vicidial/patches/patch-include_asterisk_lock.h:40-43 | identifiers drawn with an increment are pairwise distinct exactly as long as there are no more draws than machine integers |
| `AtomicCounter.DrawnIdentifiersDiffer` | asterisk11-vicidial/patches/patch-utils_extconf.c:13-33 | two results returned by different draws differ, within one thread or across threads |
| `AtomicCounter.ReferenceCountIsExact` | asterisk11-vicidial/patches/patch-utils_extconf.c:42-46 | for any mixture of calls whose running count stays in range, the counter is the count, and a decrement is to report zero exactly when it drops the last reference |
| `AtomicCounter.DroppedLastIff` | asterisk11-vicidial/patches/patch-utils_extconf.c:42-46 | and the result a thread holds for a decrement is true exactly when that call dropped the last reference |
| `FloatPrinter.StringBuilder.AppendDouble` | 0ad/patches/patch-libraries_source_fcollada_src_FCollada_FUtils_FUStringBuilder.hpp:120-154 | appends -INF, INF, NaN or 0.0E0 exactly in those cases; otherwise the text has the sign, the mantissa, the letter E and the exponent in canonical form (or mantissa 10), and reads back to within half a unit of the sixth significant digit |
| `FloatPrinter.TextHasParts` | 0ad/patches/patch-libraries_source_fcollada_src_FCollada_FUtils_FUStringBuilder.hpp:133-153 | the parts of the text: '-' exactly for negative numbers, the canonical mantissa or 10, E, and '-' exactly for negative exponents, then the magnitude without leading zeros |
| `Decimal.PrintIntIsCanonical` | 0ad/patches/patch-libraries_source_fcollada_src_FCollada_FUtils_FUStringBuilder.hpp:152 | a printed integer is '-' exactly for negative numbers, and the digits of its magnitude without leading zeros |
| `FloatPrinter.StringBuilder.AppendScaled` | 0ad/patches/patch-libraries_source_fcollada_src_FCollada_FUtils_FUStringBuilder.hpp:138-153 | the two printed pieces together are the text of the number's normal form |
| `FloatPrinter.Normalise` | 0ad/patches/patch-libraries_source_fcollada_src_FCollada_FUtils_FUStringBuilder.hpp:138-144 | both loops terminate for every positive number, with 1 <= m < 10 and m * 10^e the number |
| `FloatPrinter.NormalIsUnique` | 0ad/patches/patch-libraries_source_fcollada_src_FCollada_FUtils_FUStringBuilder.hpp:138-144 | a number has one such m and e only |
| `FloatPrinter.ExponentRange` | 0ad/patches/patch-libraries_source_fcollada_src_FCollada_FUtils_FUStringBuilder.hpp:129-144 | for doubles of magnitude at least 2^-52 the exponent is between -16 and 308 |
| `FloatPrinter.DblMaxBelowTen309` | 0ad/patches/patch-libraries_source_fcollada_src_FCollada_FUtils_FUStringBuilder.hpp:143-144 | the largest double, 2^1024 - 2^971, is below 10^309 |
| `FloatPrinter.DblMaxIs` | 0ad/patches/patch-libraries_source_fcollada_src_FCollada_FUtils_FUStringBuilder.hpp:138-144 | the largest double is 53 one bits, the last of them worth 2^971 |
| `FloatPrinter.EpsilonAboveTenMinus16` | 0ad/patches/patch-libraries_source_fcollada_src_FCollada_FUtils_FUStringBuilder.hpp:129 | the smallest magnitude printed, 2^-52, is above 10^-16 |
| `FloatPrinter.EpsilonIs` | 0ad/patches/patch-libraries_source_fcollada_src_FCollada_FUtils_FUStringBuilder.hpp:129 | the threshold is 2^-52 |
| `FloatPrinter.BothTextsFit` | 0ad/patches/patch-libraries_source_fcollada_src_FCollada_FUtils_FUStringBuilder.hpp:146-152 | the mantissa takes at most 7 characters and the exponent at most 5, so both fit the ten-byte buffer |
| `FloatPrinter.ReadText` | 0ad/patches/patch-libraries_source_fcollada_src_FCollada_FUtils_FUStringBuilder.hpp:146-153 | the text parses as sign, six-digit mantissa and exponent |
| `FloatPrinter.TextReadsBack` | 0ad/patches/patch-libraries_source_fcollada_src_FCollada_FUtils_FUStringBuilder.hpp:146-153 | the text parses back to within half a unit of the sixth significant digit of the number |
| `FloatPrinter.FractionValue` | 0ad/patches/patch-libraries_source_fcollada_src_FCollada_FUtils_FUStringBuilder.hpp:147 | dropping trailing zeros does not change the fraction |
| `FloatPrinter.CanonicalTextIff` | 0ad/patches/patch-libraries_source_fcollada_src_FCollada_FUtils_FUStringBuilder.hpp:149-150 | the text has one non-zero digit before the point, no superfluous zeros and a canonical exponent exactly when the scaled mantissa is below 9.999995; otherwise it is "10E" and the exponent |
| `FloatPrinter.CanonicalPrintIff` | 0ad/patches/patch-libraries_source_fcollada_src_FCollada_FUtils_FUStringBuilder.hpp:149-150 | in terms of the number: exactly when its magnitude is below 9.999995 times its power of ten |
| `FloatPrinter.NotCanonicalExample` | 0ad/patches/patch-libraries_source_fcollada_src_FCollada_FUtils_FUStringBuilder.hpp:146-153 | 9.999999 is printed as 10E0 |
| `SdpTag.SdpCrypto.CheckTag` | asterisk11-vicidial/patches/patch-channels_sip_sdp__crypto.c:20-25 | the tag is accepted exactly when it is one to nine digits without a superfluous leading zero, for every string and whatever atoi gives on overflow; the stored number is then the one it denotes; the field is overwritten in either case |
| `SdpTag.PrintInto` | asterisk11-vicidial/patches/patch-channels_sip_sdp__crypto.c:21 | the ten-byte buffer holds the text or its first nine characters, NUL-terminated |
| `SdpTag.Compare` | asterisk11-vicidial/patches/patch-channels_sip_sdp__crypto.c:22 | zero exactly when the C string in the buffer is the tag |
| `SdpTag.PassesIffCanonical` | asterisk11-vicidial/patches/patch-channels_sip_sdp__crypto.c:20-22 | the condition on the truncated print, the tag and the range holds exactly for canonical tags |
| `SdpTag.AcceptedWithinGrammar` | asterisk11-vicidial/patches/patch-channels_sip_sdp__crypto.c:19 | accepted tags are exactly the strings of one to nine digits without a superfluous leading zero |
| `SdpTag.TagsAreOneToOne` | asterisk11-vicidial/patches/patch-channels_sip_sdp__crypto.c:20-22 | two accepted tags are equal exactly when their stored numbers are, despite the truncation |
| `SdpTag.EveryTagNumberIsAccepted` | asterisk11-vicidial/patches/patch-channels_sip_sdp__crypto.c:19-22 | every number from 0 to 999999999 is the number of an accepted tag |
| `DispatchStub.StubLayout` | MesaLib-dfbsd-meson/patches/patch-src_mapi_entry__x86__tsd.h:47-61 | the instructions lie at the offsets used, by their encoded lengths, whichever form the final jump has; the stub is longer than 32 bytes and fits the entry size of 64 |
| `DispatchStub.StepReaches` | MesaLib-dfbsd-meson/patches/patch-src_mapi_entry__x86__tsd.h:49-60 | one instruction takes the assertions at its address to those at the next |
| `DispatchStub.StepGot` | MesaLib-dfbsd-meson/patches/patch-src_mapi_entry__x86__tsd.h:52-53 | the popped program counter plus the linker's constant is the address of the GOT, at every load address |
| `DispatchStub.StepReturn` | MesaLib-dfbsd-meson/patches/patch-src_mapi_entry__x86__tsd.h:58 | after the getter returns, eax holds the table it supplied and the saved ebx is still on the stack |
| `DispatchStub.RunStub` | MesaLib-dfbsd-meson/patches/patch-src_mapi_entry__x86__tsd.h:47-61 | at every load address the run ends with a jump to the word at entry `slot` of the current table, or of the getter's if there is none, with esp, ebx and the caller's frame as on entry; the PLT entry is entered exactly when there is no table, with the address of the GOT in ebx; with a table at hand only eax, flags and the eight bytes below the stack pointer differ |
| `DispatchStub.TargetAsOnEntry` | MesaLib-dfbsd-meson/patches/patch-src_mapi_entry__x86__tsd.h:61 | where the table entry is outside those eight bytes the target is the one stored there on entry |
| `FdSet.BufferHoldsHandles` | asterisk11-vicidial/patches/patch-res_pjproject_pjlib_include_pj_sock__select.h:18 | for every limit and word size the words behind the count have a bit for every handle despite both roundings, with at most three words to spare |
| `FdSet.HandleInBuffer` | asterisk11-vicidial/patches/patch-res_pjproject_pjlib_include_pj_sock__select.h:18 | the word of every handle below the limit lies inside the buffer, behind the count |
| `FdSet.PjFdSet.Zero` | asterisk11-vicidial/patches/patch-res_pjproject_pjlib_src_pj_sock__select.c:11-17 | the set is empty, the count zero, the words behind the set untouched |
| `FdSet.PjFdSet.IsSet` | asterisk11-vicidial/patches/patch-res_pjproject_pjlib_src_pj_sock__select.c:35-42 | the bit test is membership in the abstract set |
| `FdSet.PjFdSet.FdPut` | asterisk11-vicidial/patches/patch-res_pjproject_pjlib_src_pj_sock__select.c:24-33 | a bit update adds or removes one descriptor and leaves the count word alone |
| `FdSet.PjFdSet.Set` | asterisk11-vicidial/patches/patch-res_pjproject_pjlib_src_pj_sock__select.c:19-25 | the descriptor is added and the count stays the number of members |
| `FdSet.PjFdSet.Clear` | asterisk11-vicidial/patches/patch-res_pjproject_pjlib_src_pj_sock__select.c:27-33 | the descriptor is removed and the count stays the number of members |
| `FdSet.Replay` | asterisk11-vicidial/patches/patch-res_pjproject_pjlib_src_pj_sock__select.c:11-33 | after zeroing and any run of operations below the limit the set is the expected one and the count its size |
| `FdSet.MembersAfterPut` | asterisk11-vicidial/patches/patch-res_pjproject_pjlib_src_pj_sock__select.c:24-33 | changing one bit of one word changes the membership of one descriptor only |
| `DrmProbe.PipeLoader.Probe` | MesaLib-dfbsd-meson/patches/patch-src_gallium_auxiliary_pipe-loader_pipe__loader__drm.c:51-125 | slot i holds the i-th device found exactly for i below ndev and the count, and no other slot is written; the count is that of all found; the devices released and the first ndev found are together the devices probed, each as often |
| `DrmProbe.PipeLoader.ProbeRenders` | MesaLib-dfbsd-meson/patches/patch-src_gallium_auxiliary_pipe-loader_pipe__loader__drm.c:65-81 | after the first loop the identifiers are those of all render devices, stored or not, and the array and releases agree with ndev |
| `DrmProbe.PipeLoader.KeepUnlessDuplicate` | MesaLib-dfbsd-meson/patches/patch-src_gallium_auxiliary_pipe-loader_pipe__loader__drm.c:99-121 | a device that matches a render device is released once; another is stored, or released once if there is no room, and counted |
| `DrmProbe.PipeLoader.IsDuplicate` | MesaLib-dfbsd-meson/patches/patch-src_gallium_auxiliary_pipe-loader_pipe__loader__drm.c:102-110 | the search says whether some render device has the same vendor and the same chip |
| `DrmProbe.DevicesConserved` | MesaLib-dfbsd-meson/patches/patch-src_gallium_auxiliary_pipe-loader_pipe__loader__drm.c:51-125 | stored and released devices together are the devices probed, each as often |
| `DrmProbe.FoundIsSelection` | MesaLib-dfbsd-meson/patches/patch-src_gallium_auxiliary_pipe-loader_pipe__loader__drm.c:83-121 | the devices found are the render devices followed by the primary devices that match none of them, in order |
| `DrmProbe.FoundIff` | MesaLib-dfbsd-meson/patches/patch-src_gallium_auxiliary_pipe-loader_pipe__loader__drm.c:99-125 | a device is found exactly when it is one of those, and the count is theirs whatever ndev |
| `DrmProbe.MatchesIff` | MesaLib-dfbsd-meson/patches/patch-src_gallium_auxiliary_pipe-loader_pipe__loader__drm.c:99-110 | a primary device is a duplicate exactly if some render device has its vendor and its chip |
| `DrmProbe.DevicesPlaces` | MesaLib-dfbsd-meson/patches/patch-src_gallium_auxiliary_pipe-loader_pipe__loader__drm.c:65-97 | the devices behind the minors are those of the minors that can be opened and probed, each once, in order |
| `DrmProbe.SelectPlaces` | MesaLib-dfbsd-meson/patches/patch-src_gallium_auxiliary_pipe-loader_pipe__loader__drm.c:99-121 | the primary devices that are added are the new ones, each once, in order |
| `DrmProbe.SelectPartitions` | MesaLib-dfbsd-meson/patches/patch-src_gallium_auxiliary_pipe-loader_pipe__loader__drm.c:99-113 | selecting duplicates and others loses and repeats nothing |
| `DrmProbe.StoredIsPrefix` | MesaLib-dfbsd-meson/patches/patch-src_gallium_auxiliary_pipe-loader_pipe__loader__drm.c:115-119 | a smaller ndev yields a prefix of what a larger one does, and the rest is what overflows |
| `ProcessIterator.Iterator.constructor` | chromium/patches/patch-base_process_process__iterator__netbsd.cc:29-82 | the list is that of the deciding attempt, empty unless it delivered records |
| `ProcessIterator.Iterator.FetchList` | chromium/patches/patch-base_process_process__iterator__netbsd.cc:44-81 | at most ten attempts; the last is the first that was not out of room, or the tenth; the list holds exactly its records or none |
| `ProcessIterator.Iterator.CheckForNextProcess` | chromium/patches/patch-base_process_process__iterator__netbsd.cc:87-144 | stops at the first eligible process from the cursor on with its entry, one past it, or runs to the end and returns false |
| `ProcessIterator.EligibleShows` | chromium/patches/patch-base_process_process__iterator__netbsd.cc:90-141 | the entry of an eligible process shows its pid, parent and group, the base name of the text before the first NUL and the arguments; it is no zombie with a positive identifier, and its arguments were fetched |
| `ProcessIterator.Iterator.Examine` | chromium/patches/patch-base_process_process__iterator__netbsd.cc:90-141 | one turn of the loop: a zombie with a positive identifier leaves entry and buffer alone; another process makes an entry exactly if its arguments were fetched and the buffer then holds a NUL |
| `ProcessIterator.Iterator.ReadArgs` | chromium/patches/patch-base_process_process__iterator__netbsd.cc:99-109 | the buffer after the two queries, failures included |
| `ProcessIterator.Iterator.Identify` | chromium/patches/patch-base_process_process__iterator__netbsd.cc:123-137 | the entry gets the process's identifiers and the name cut from its block |
| `ProcessIterator.CollectAll` | chromium/patches/patch-base_process_process__iterator__netbsd.cc:87-144 | repeated calls yield each eligible process once, in order, for any kernel answers, and then false; no entry is that of a zombie with a positive identifier; under the condition of `ListingIsOwnIff`, and only then, the entries are those of all other processes whose block was fetched and holds a NUL, each made of its own block |
| `ProcessIterator.ZombiesArePassedOver` | chromium/patches/patch-base_process_process__iterator__netbsd.cc:88-109 | a zombie with a positive identifier is never eligible and leaves the buffer as it was; any other process is eligible exactly if its arguments were fetched and the buffer then holds a NUL |
| `ProcessIterator.ListingIsOwnIff` | chromium/patches/patch-base_process_process__iterator__netbsd.cc:87-144 | for all kernel answers: the processes listed are the non-zombie ones whose block was fetched and holds a NUL, each described by its own block, if and only if no block is so much shorter than announced that bytes other than NUL, which the kernel wrote last in the same call, show behind it |
| `ProcessIterator.OwnListingPlaces` | chromium/patches/patch-base_process_process__iterator__netbsd.cc:87-144 | the intended listing: the places listed are exactly those of the processes with pid <= 0 or not zombies whose block was fetched and holds a NUL, in order, with their identifiers, base names and arguments |
| `ProcessIterator.CleanIsPadded` | chromium/patches/patch-base_process_process__iterator__netbsd.cc:105 | a block shorter than announced is filled up with NULs |
| `ProcessIterator.ForeignBytesShow` | chromium/patches/patch-base_process_process__iterator__netbsd.cc:105-137 | bytes of another process behind a block always change the arguments of the entry |
| `ProcessIterator.ListingIsNoLonger` | chromium/patches/patch-base_process_process__iterator__netbsd.cc:105-128 | they may hide a process but never add one |
| `ProcessIterator.HonestKernelListsAll` | chromium/patches/patch-base_process_process__iterator__netbsd.cc:87-144 | corollary of `ListingIsOwnIff`: its condition holds when every block has the size announced |
| `ProcessIterator.StaleBytesExample` | chromium/patches/patch-base_process_process__iterator__netbsd.cc:88-137 | two processes of which one is listed, under the rest of the other one's name |
| `ProcessIterator.ExeFileIsBaseName` | chromium/patches/patch-base_process_process__iterator__netbsd.cc:120-137 | the name is the slash-free end of the text before the first NUL, all of it or what follows a slash |
| `ProcessIterator.LastSlashIsLast` | chromium/patches/patch-base_process_process__iterator__netbsd.cc:132 | the slash found is the last at or before the position |
| `ProcessIterator.TokensFaithful` | chromium/patches/patch-base_process_process__iterator__netbsd.cc:111-118 | the arguments are non-empty, free of NUL, and together the block without its NULs |
| `ProcessIterator.TokensAreFields` | chromium/patches/patch-base_process_process__iterator__netbsd.cc:115-118 | the arguments are what stands between the NULs of the block, where that is not empty: its longest NUL-free stretches, all of them, in order |
| `L3Affinity.Thread.PinToL3` | MesaLib-dfbsd-meson/patches/patch-src_util_u__thread.h:36-48 | the affinity mask is the set of CPUs requested, wrapped and within capacity |
| `L3Affinity.Thread.L3OfPinned` | MesaLib-dfbsd-meson/patches/patch-src_util_u__thread.h:65-91 | the answer is the cache of all CPUs of the mask below the loop bound, or -1 for none or several (`AnswerMeans` says so CPU by CPU) |
| `L3Affinity.AnswerMeans` | MesaLib-dfbsd-meson/patches/patch-src_util_u__thread.h:73-90 | -1 exactly if no CPU of the mask is below the bound or two of them differ in index / cores; otherwise index / cores of each of them |
| `L3Affinity.PinnedToIff` | MesaLib-dfbsd-meson/patches/patch-src_util_u__thread.h:45-46 | exactly which CPUs pinning asks for |
| `L3Affinity.PinThenAskIff` | MesaLib-dfbsd-meson/patches/patch-src_util_u__thread.h:36-91 | pinning to cache k and asking returns k exactly when the first CPU of k is below the size of the cpuset in bytes |
| `L3Affinity.PinThenAsk` | MesaLib-dfbsd-meson/patches/patch-src_util_u__thread.h:36-91 | the same on a thread that is pinned and then asked |
| `L3Affinity.QueryRightIff` | MesaLib-dfbsd-meson/patches/patch-src_util_u__thread.h:75 | on n CPUs the query is right about every mask exactly when the cpuset has n bytes or more |
| `L3Affinity.AnswerIsUnique` | MesaLib-dfbsd-meson/patches/patch-src_util_u__thread.h:73-90 | the description of the answer leaves no choice |
| `HitSelection.Select` | blasr/patches/patch-Blasr.cpp:16-21 | the loop keeps a prefix of the satisfying alignments: min(nBest, count) of them, or all for a limit below one |
| `HitSelection.SatisfyingIff` | blasr/patches/patch-Blasr.cpp:17-18 | an alignment is kept by the filter exactly when it is in the list and satisfies the criteria |
| `HitSelection.SatisfyingPlaces` | blasr/patches/patch-Blasr.cpp:16-18 | the alignments the filter keeps are those at the places that satisfy, each once, in order |
| `HitSelection.KeepBest` | blasr_libcpp/patches/patch-alignment_datastructures_alignment_FilterCriteria.cpp:23-35 | the scan keeps the prefix of best scores, and reads past the end exactly when all scores are equal |
| `HitSelection.PrefixIsBestIff` | blasr_libcpp/patches/patch-alignment_datastructures_alignment_FilterCriteria.cpp:25-35 | that prefix is what the replaced stable filter keeps exactly when the best scores stand together in front |
| `HitSelection.SortedIsContiguous` | blasr_libcpp/patches/patch-alignment_datastructures_alignment_FilterCriteria.cpp:21-23 | which holds for every list sorted by score |
| `HitSelection.SelectBest` | blasr_libcpp/patches/patch-alignment_datastructures_alignment_FilterCriteria.cpp:20-35 | on a sorted list the two steps together keep the first satisfying alignments, as many as have the best score but at most nBest; exactly when all that the limit lets through share the best score the scan leaves the list |
| `HitSelection.LimitedBest` | blasr_libcpp/patches/patch-alignment_datastructures_alignment_FilterCriteria.cpp:20-35 | for every sorted list and limit: the first nBest of the best are a prefix of best scores, at most nBest long, and no longer one would do |
| `ExitHandlers.Process.AddAtExitCall` | MesaLib-dfbsd-meson/patches/patch-src_egl_main_eglglobals.c:36-56 | either form records the call and keeps its flag and the atexit list in agreement with the history |
| `ExitHandlers.Process.InsertConfig` | MesaLib-dfbsd-meson/patches/patch-src_glx_dri__glx.c:33-40 | either form puts the entry in front and keeps flag, list and registrations in agreement with the history |
| `ExitHandlers.Process.EglAtExit` | MesaLib-dfbsd-meson/patches/patch-src_egl_main_eglglobals.c:24-35 | the calls registered run once each, the latest first, in either form |
| `ExitHandlers.EglTraceReverses` | MesaLib-dfbsd-meson/patches/patch-src_egl_main_eglglobals.c:33-34 | the clean-up is one call for each registered function that is not null, in the reverse order of registration |
| `ExitHandlers.Process.ClearConfigs` | MesaLib-dfbsd-meson/patches/patch-src_glx_dri__glx.c:21-31 | every cached entry is freed once, the latest first, and the list is empty, in either form |
| `ExitHandlers.GlxTraceReverses` | MesaLib-dfbsd-meson/patches/patch-src_glx_dri__glx.c:29-31 | the clean-up frees each cached configuration once, in the reverse order of insertion |
| `ExitHandlers.Process.Exit` | MesaLib-dfbsd-meson/patches/patch-src_egl_main_eglglobals.c:17-35 | at exit exactly the clean-up of the form happens and the cache is empty |
| `ExitHandlers.RunAndExit` | MesaLib-dfbsd-meson/patches/patch-src_egl_main_eglglobals.c:17-53 | for every history that the array of calls has room for, a process that does it and exits performs exactly the clean-up the history asks for in its form, and empties the cache |
| `ExitHandlers.SameCleanupPerModule` | MesaLib-dfbsd-meson/patches/patch-src_egl_main_eglglobals.c:17-53 | for every history each library performs the same clean-ups in the same order in both forms, each once |
| `ExitHandlers.SameTraceIff` | MesaLib-dfbsd-meson/patches/patch-src_glx_dri__glx.c:14-40 | the combined order agrees as well exactly when at most one library was used or the one first used is destroyed last |
| `ExitHandlers.AtExitTraceForm` | MesaLib-dfbsd-meson/patches/patch-src_egl_main_eglglobals.c:49-51 | with atexit the library used first is cleaned up last |
| `ExitHandlers.FirstUsedIsFirst` | MesaLib-dfbsd-meson/patches/patch-src_egl_main_eglglobals.c:41-51 | the library used first is that of the first event that registers a call or caches a configuration |
| `ExitHandlers.FirstIsUsed` | MesaLib-dfbsd-meson/patches/patch-src_glx_dri__glx.c:35-39 | the library that registers first has something to clean up, and if neither registers neither has |

## Left out

- KqueueTimer.TimingModule.Open: the file descriptor of the queue is a fresh number and its release is not modelled.
- KqueueTimer.TimingModule.Close: `timer_destroy` is only seen as the last reference going; no call that releases the pipe's read end appears in the patch, so the model keeps such descriptors at end of file for ever.
- KqueueTimer.TimingModule.Ack: the moment of sampling is one step, with the timer's expirations as separate steps; blocking and time itself are not modelled.
- KqueuePeriod.ScaledPeriodIsZeroIff: the limit of the period is taken to be at least 2^31 - 1; smaller ones only occur in `IsFinestFit`, which holds for every limit.
- BufferClear.SiContext.SiPipeClearBuffer: offset, size and their sum are unbounded, where the code has `unsigned` arguments and 64-bit ones; the range lies inside the buffer; cache policy, coherency flags and `si_copy_buffer` are not modelled.
- BufferClear.FillDwords: the two engines and the blitter are taken to fill the range they are given; their command streams and failure paths are not modelled.
- AtomicCounter.EveryRunIsLinearized: memory ordering other than that of the one cell.
- AtomicCounter.Cell.FetchAdd: conversion of an out-of-range unsigned value to int is two's complement, as the compilers concerned define it.
- FloatPrinter.Normalise: IEEE rounding in the scaling loops, which are over exact reals.
- FloatPrinter.StringBuilder.AppendDouble: IEEE rounding in the scaling loops; doubles are exact reals, and "%.6g" rounds to the nearest, ties to even. The sign of zero and wide-character builders are not modelled.
- SdpTag.SdpCrypto.CheckTag: the rest of `sdp_crypto_process`; where atoi overflows it may return any int.
- DispatchStub.RunStub: the stub does not wrap around the address space, at least eight bytes lie below the stack pointer, the GOT slot and the table variable are outside those bytes, and the getter keeps its caller's frame; code bytes are not part of memory. `MAPI_MODE_BRIDGE` and stubs generated at run time are not modelled.
- FdSet.PjFdSet.FdPut: a word is a natural number whose bits are the descriptors in order; byte order within words and the `fd_set` of other systems are not modelled, and descriptors are below the limit as `FD_SET` demands.
- DrmProbe.PipeLoader.Probe: the array of render identifiers is taken to be long enough for the render devices, as its size and the bounds on minors are defined outside the patch; closing of file descriptors is not modelled, releases of devices are. The form without primary nodes is the first loop.
- ProcessIterator.CollectAll: the process filter and `NamedProcessIterator`, logging, and `getuid`.
- ProcessIterator.Iterator.FetchList: the kernel delivers no more records than there is room for.
- L3Affinity.Thread.PinToL3: failing `cpuset_create` and `pthread_setaffinity_np`.
- L3Affinity.Thread.L3OfPinned: a failing `pthread_getaffinity_np`, which gives -1; the cpuset has fewer than 2^31 bytes, so that a cache index is an int.
- HitSelection.SelectBest: the hit policies other than the scan for the best score, which are outside the patch; scores are integers.
- ExitHandlers.Process.AddAtExitCall: an addition to a full array fails an assertion in the code and is excluded; the mutexes, and functions registered while the exit calls run.
- ExitHandlers.Process.InsertConfig: the extensions and driver name of an entry, and the search for an entry that is already cached.
- The copies of the Mesa patches under other package directories hold the same code.
- Patches that only add includes, conditions, paths or formats hold no algorithm.
