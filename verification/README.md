# RoxyGlance in Dafny

A Dafny model of the parts of RoxyGlance, a Windows window-layout daemon, that carry
properties worth proving, with the proofs. `dafny verify dfyconfig.toml` checks all of it.

| file | what it models |
|---|---|
| `ThreadController.dfy`, `Controllers.dfy` | the life of a worker thread under its controller: start, failed start, stop with retries, reap; the window and hook controllers over whole runs of calls |
| `Handshake.dfy` | the start handshake between starter and worker through a stack context, under every interleaving |
| `Backoff.dfy` | shift-form scalers, jitter, exponential backoff, the retry counter |
| `Binary32.dfy`, `Placement.dfy` | finite binary32 arithmetic, the rounding kernels without SSE4.1, relative placement, the shadow margin and the operation that caches its bounds |
| `SimdLanes.dfy` | integer vectors: the plain array and both packed forms of the same expressions |
| `Random.dfy`, `ProcessBuffer.dfy` | xorshift generators and seed mixers on words of any width; the growing name buffer |
| `Triggers.dfy`, `MatchPattern.dfy`, `SettingsTree.dfy`, `ActionSettings.dfy` | settings objects that write through to YAML nodes: trigger lists, the pattern notation, filters, actions |
| `RuleEngine.dfy` | compiling settings to predicates and operations, and running them |
| `RuleEditor.dfy`, `SavedRules.dfy` | the rule editor, and the way from the editor through the document and the compiler to the engine |
| `WrittenRules.dfy` | rules as the documentation writes them, from their nodes to what is run |
| `LogMirror.dfy`, `WindowCache.dfy` | the log view behind its delayed queue; the window-state cache behind its events |
| `LiveRules.dfy` | settings, cache and engine together over the history of the running program |
| `Wrappers.dfy`, `Text.dfy`, `Win32.dfy` | shared values, case-insensitive names, status words |

Objects that the program updates in place are classes. Each of their methods is proved equal
to a step function on values, and the results over runs, schedules and interleavings are
proved about those functions. What the system answers is a parameter everywhere, so every
result holds for all answers.

The proofs also settle where the code does less than one would expect. These cases are kept
as the code has them, each with the exact condition under which it happens:

- A worker whose failing call leaves a last error of zero publishes S_OK
  (`Handshake.StarterReadsSuccessExactly`). The window controller then starts without a window, and from
  that state no call changes anything (`Handshake.SuccessMeansOwnWindow`,
  `Controllers.HandshakeStrandsExactly`, `Controllers.StrandedForever`); the hook controller runs without a
  hook (`Controllers.HookStartSucceedsExactly`).
- A worker that exits with a failure status is reaped, but the old window handle stays stored
  (`Controllers.ReapClearsHandleExactly`); a stop posts to such a handle exactly when it is still
  there and the recorded worker published none (`Controllers.StopPostsToOwnWindowExactly`).
- The wake of a published result is a step after the store. After S_OK, and only then, it may follow
  the end of the context (`Handshake.LateWakeExactly`, `Handshake.SplitNotifyMayWakeLate`).
- The shadow margin is inner minus outer and is added to the position, so the visible part
  moves by twice the left and top shadows (`Placement.VisiblePlacement`), and the bounds computed
  for the first window are used for all later ones, whatever their margin, work area or monitor
  (`Placement.CachedBoundsFitExactly`).
- A predicate set holds two predicates while a filter has three fields; a rule with three active
  fields overflows it and the old rules stay in force (`RuleEngine.OverfullRuleKeepsOldSet`). A parse
  error during compilation escapes from a function that may not throw and ends the program
  (`RuleEngine.CompilesExactly`, `RuleEngine.EngineFollowsLastInstallable`).
- Setting the upper half of a packed vector from two scalars is right without SSE4.1 but with it
  only for zeros (`SimdLanes.SettingUpperHalfExactly`).
- A log update that runs after its cell was reused shows a later log (`LogMirror.EveryEntryIsExactlyTimely`,
  `LogMirror.FirstUpdateIsLateExactly`).
- A pending change of the editor may change nothing (`RuleEditor.ApplyChangesNothingExactly`), as after
  adding and deleting a key (`RuleEditor.PendingWithoutChange`), or only the order of the document
  (`RuleEditor.ApplyKeepsFilterExactly`).
- A foreground event makes a cache entry before the handle is known to be a root window; such an
  entry is never removed (`WindowCache.ChildEntryStaysForGood`).
- The pattern notation does not keep contains, starts-with and ends-with values that begin or end
  with its own signs (`MatchPattern.ReadAfterWrite`), so a saved rule with such a value is read back as
  another one (`SavedRules.SavedRuleReadsBackExactly`) and acts as that one
  (`SavedRules.SavedRuleActsAsReread`); likewise a monitor name (`ActionSettings.RunAgreesExactly`).
- Nothing checks the trigger for the start of the application, so that a rule with no other trigger
  never runs (`LiveRules.InitRulesNeverRun`).

The documentation and the code differ in these points, where the model follows the code. It gives 0 to
0x4000 as the range of absolute coordinates (docs/configuration.md:90), while the code accepts -0x4000 to
0x4000 (src/app/settings/constants.h:42-43, `ActionSettings.AbsoluteNumbers`). It lists `init` as a trigger
(docs/configuration.md:48). It lets a rule omit `where` and `then` (docs/configuration.md:39-40), while the code
raises a parse error for either (src/app/settings/Rule.cc:15-21, `Triggers.Rule.Make`).

## Model

| member | source | states |
|---|---|---|
| ThreadController.SecondCheckIsNeverTaken | src/app/win32/MessageLoopThreadController.cc:73-131 | in every state that satisfies the invariant the handle check after the state check decides nothing, and start succeeds exactly when the controller is ready, a procedure is given and the thread is created |
| ThreadController.StartErrors | src/app/win32/MessageLoopThreadController.cc:73-131 | the status of a start that fails: for a missing procedure, for a controller in use, and for each error that the runtime may leave |
| ThreadController.StartKeepsInv | src/app/win32/MessageLoopThreadController.cc:73-131 | start keeps: the handle is invalid exactly when ready; every created handle but the recorded one is closed; handles are closed once and in order |
| ThreadController.ReapKeepsInv | src/app/win32/MessageLoopThreadController.cc:249-272 | the same for the reap, whatever the exit code and the close call answer |
| ThreadController.StartFailureKeepsInv | src/app/win32/MessageLoopThreadController.cc:133-161 | the same for the bounded reap after a failed start |
| ThreadController.StopKeepsInv | src/app/win32/MessageLoopThreadController.cc:175-247 | the same for the retrying stop |
| ThreadController.StopLoopMeaning | src/app/win32/MessageLoopThreadController.cc:188-235 | the loop ends at the first round that sees the exit, cannot be retried or is the last allowed one, so after at most the allowed number of posts; it reports an exit exactly when that round saw one |
| ThreadController.StopOutcome | src/app/win32/MessageLoopThreadController.cc:175-247 | a stop reaps exactly when some wait saw the worker exit and its handle closed; otherwise state stopping and the handle are kept, the result is the error of the last round, or that of closing the handle if the exit was seen, and the program ends exactly when no exit was seen under the fail-fast policy |
| ThreadController.RoundErrorMeaning | src/app/win32/MessageLoopThreadController.cc:190-227 | a round without an exit reports the post error if there is one, and otherwise the timeout or the error of the wait; it reports S_OK only for last errors of zero |
| ThreadController.WaitsStayInBudget | src/app/win32/MessageLoopThreadController.cc:194-211 | with doubling the waits of the first n rounds sum to at most the sum over i = 1..n of min(Min*2^i, Max), whatever the random source yields |
| ThreadController.RoundWaits | src/app/win32/MessageLoopThreadController.cc:190-211 | with doubling and equal jitter a round that can be retried waits at least half of min(Min*2^(i+1), Max) and at most that, and one that cannot does not wait |
| ThreadController.RetryableExactly | src/app/win32/MessageLoopThreadController.cc:190-200 | a round is retried after a post that succeeded or met a full message queue, and after no other |
| ThreadController.ExitStatusMeaning | src/app/win32/MessageLoopThreadController.cc:249-272 | the status of a reaped worker keeps all bits of its exit word, so that the upper half of the words are failures; a failed query is a failure unless its last error is zero |
| ThreadController.MessageLoopThreadController.constructor | src/app/win32/MessageLoopThreadController.cc:34-58 | a new controller is ready without a handle |
| ThreadController.MessageLoopThreadController.Start | src/app/win32/MessageLoopThreadController.cc:73-131 | the method in place does what the step function of the proofs does, result and thread information included |
| ThreadController.MessageLoopThreadController.ReapThread | src/app/win32/MessageLoopThreadController.cc:249-272 | close failure keeps the handle and the state; success clears both and returns the exit status |
| ThreadController.MessageLoopThreadController.ReapThreadAfterStartFailure | src/app/win32/MessageLoopThreadController.cc:133-161 | one bounded wait, then the reap, or the policy |
| ThreadController.MessageLoopThreadController.RetryUntilExit | src/app/win32/MessageLoopThreadController.cc:188-235 | the loop over the retry object ends where the loop function says, with the waits it used |
| ThreadController.MessageLoopThreadController.StopThread | src/app/win32/MessageLoopThreadController.cc:175-247 | the whole stop: new state, result and list of waits |
| Controllers.HookRunIsSafe | src/app/win32/WinEventHookController.cc:67-138 | from any policy and any retry factory, over every run of starts and stops with arbitrary system answers: the handle is invalid exactly when ready, and every created handle is closed at most once and before the next one exists |
| Controllers.RepeatedStopsFinish | src/app/win32/MessageLoopThreadController.cc:175-247 | under the policy that returns, any number of unfinished stops keeps the worker recorded, and a later stop that sees it exit and closes its handle returns to ready |
| Controllers.StopWaitsAreBounded | src/app/win32/MessageLoopThreadController.cc:188-235 | no stop in any run from any constructor waits longer than its attempts times the cap of its delays, or 34 seconds with the exit factory |
| Controllers.StopFinishesExactly | src/app/win32/WinEventHookController.cc:122-138 | a stop by another thread returns a started controller to ready exactly when some wait saw the exit and the handle could be closed |
| Controllers.StopWaitsAtMost34Seconds | src/app/win32/WinEventHookController.cc:71-109 | from the default constructor no stop in any run waits longer than 34 seconds in total |
| Controllers.LongStopWaits | src/app/win32/WinEventHookController.cc:96-109 | a stop with the exit factory that uses all five rounds has waited at least 12 seconds, and at least 17 if its last post could be retried |
| Controllers.DefaultStopWaits | src/app/win32/MessageLoopThreadController.cc:34-58 | before a start has succeeded a stop has one round, and waits one second in it if its post can be retried |
| Controllers.WindowRunIsSafe | src/app/win32/WindowController.cc:161-236 | the same safety for every run of the window controller |
| Controllers.StrandedForever | src/app/win32/WindowController.cc:221-224 | a started window controller without a window handle never changes again, whatever is called |
| Controllers.StartStrandsExactly | src/app/win32/WindowController.cc:161-203 | when a start leaves a live but stranded controller: an S_OK with a null window, or a failed start with no handle left over whose reap did not finish without ending the program |
| Controllers.HandshakeStrandsExactly | src/app/win32/WindowController.cc:72-203 | with the real handshake in any interleaving and whatever handle was left over: a start that returns S_OK stores the window that its own worker made, and strands the controller exactly when the failing call of the worker left a last error of zero |
| Controllers.HookStartSucceedsExactly | src/app/win32/WinEventHookController.cc:32-109 | with the real handshake in any interleaving, a start of the hook controller succeeds and leaves it running exactly when the worker set its hook, or failed to with a last error of zero and there is no hook |
| Controllers.StopStrandsExactly | src/app/win32/WindowController.cc:209-236 | when a stop strands a healthy controller: the exit was seen but closing the handle failed with a last error of zero |
| Controllers.ReapClearsHandleExactly | src/app/win32/WindowController.cc:229-235 | after a stop that reaped, the stored window handle is cleared exactly when the exit status was not a failure |
| Controllers.StopPostsToOwnWindowExactly | src/app/win32/WindowController.cc:161-236 | in every run the window that a stop would post to is the one that the recorded worker published exactly when no handle of an earlier worker is left over |
| Controllers.StaleTarget | src/app/win32/WindowController.cc:229-235 | a worker that exits with a failure leaves its handle, and when the next worker fails to start and cannot be reaped a stop would post to it |
| Controllers.WinEventHookController.constructor | src/app/win32/WinEventHookController.cc:71-73 | the default retry factory under the fail-fast policy |
| Controllers.WinEventHookController.WithRetry | src/app/win32/WinEventHookController.cc:67-69 | a supplied retry factory under the fail-fast policy |
| Controllers.WinEventHookController.Start | src/app/win32/WinEventHookController.cc:75-116 | start in place equals the specified sequence |
| Controllers.WinEventHookController.Stop | src/app/win32/WinEventHookController.cc:122-138 | stop in place equals the specified sequence |
| Controllers.StartAndWait | src/app/win32/WinEventHookController.cc:85-109 | the shared part: start, wait for the published result, bounded reap or new retry factory |
| Controllers.WindowController.Start | src/app/win32/WindowController.cc:161-203 | start in place equals the specified sequence and publishes the handle only on S_OK |
| Controllers.WindowController.Stop | src/app/win32/WindowController.cc:209-236 | stop in place equals the specified sequence |
| Handshake.WorkerRespectsContext | src/app/win32/ThreadContext.h:13-32 | in every interleaving the worker publishes at most once, never uses a field of the context after the starter left, so that up to its publication the context is alive, publishes exactly once if it ends, and the starter returns just that result |
| Handshake.WorkerEndsExactly | src/app/win32/WindowController.cc:72-136 | once the starter can be woken, a worker that failed ends at once and one that did not runs its loop, cleans up and ends, and nothing else does |
| Handshake.SuccessMeansOwnWindow | src/app/win32/WindowController.cc:72-136 | a starter that reads S_OK gets the window of its own worker; it is null exactly when the failing call of the worker left a last error of zero |
| Handshake.StarterReadsSuccessExactly | src/app/win32/ThreadContext.h:9-35 | the starter of either worker returns S_OK exactly when the worker did not fail or its failing call left a last error of zero |
| Handshake.NullWindowWitness | src/app/win32/WindowController.cc:89-91 | the null case is reachable |
| Handshake.StarterIsReleasedExactly | src/app/win32/ThreadContext.h:25-32 | after publication the waiting starter goes on exactly when the result is not the pending marker, which only the error word 0x8000000A becomes |
| Handshake.LateWakeExactly | src/app/win32/ThreadContext.h:13-16 | storing and waking are two steps: in every schedule only the wake of a worker that published S_OK can be late, and between the two steps steps of the starter alone can make it late exactly when the published result is S_OK, since after a failure the starter returns only once its worker has exited |
| Handshake.FailedStarterStays | src/app/win32/MessageLoopThreadController.cc:133-161 | as long as a worker that failed has not woken its starter, no number of steps lets the starter return |
| Handshake.SuccessfulStarterReturns | src/app/win32/ThreadContext.h:25-32 | a starter that reads S_OK returns within three steps, even if its worker takes none |
| Handshake.SplitNotifyMayWakeLate | src/app/win32/ThreadContext.h:13-16 | either worker has a schedule with a late wake: it succeeds, its starter returns, and only then it wakes |
| Handshake.RunKeepsInv | src/app/win32/ThreadContext.h:9-35 | the invariant of both threads holds in every interleaving |
| Win32.OnlyZeroSucceeds | src/app/win32/hresult.h:18-24 | an error word becomes S_OK exactly when it is zero and a failure otherwise |
| Win32.ErrorWord | src/app/win32/hresult.h:17-23 | an error code becomes a failure of facility 7 with the low word of the code; zero and words that read as failures already keep all bits |
| Win32.KnownWords | src/app/win32/hresult.h:5-15 | the status words that the program names |
| Backoff.ScalerIsExact | src/app/utility/backoff/exponential.h:23-118 | every shift-form scaler equals min(floor(scale * v), Max) with no wrap-around for v up to Max |
| Backoff.GrowsExactly | src/app/utility/backoff/exponential.h:23-118 | a delay below the cap grows exactly when floor(scale * v) exceeds v; for 1.125 that is v >= 8 |
| Backoff.EqualJitterRange | src/app/utility/backoff/jitter.h:22-37 | equal jitter yields exactly the range from ceil(d/2) to d |
| Backoff.DelayRange | src/app/utility/backoff/jitter.h:14-57 | over all random words the n-th delay takes exactly the values from a share of the undithered delay, one half of it with equal jitter, up to it; without jitter it is the undithered delay |
| Backoff.DelaysAreMonotone | src/app/utility/backoff/exponential.h:145-165 | delays never exceed the cap and never decrease |
| Backoff.DoublingClosedForm | src/app/utility/backoff/exponential.h:79-86 | doubling gives min(Min * 2^n, Max) after n advances |
| Backoff.BackoffState.Next | src/app/utility/backoff/exponential.h:153-165 | the object advances by one scaled step and returns a delay within the jitter range |
| Backoff.BackoffState.Reset | src/app/utility/backoff/exponential.h:145-147 | back to the first delay |
| Backoff.RetryState.AdvanceAttempt | src/app/utility/RetryState.inl:34-36 | counts one attempt |
| Backoff.RetryState.ForceExpire | src/app/utility/RetryState.inl:40-42 | expires at once |
| Binary32.RoundIsNearest | src/app/numeric/x86/float32x4_x86.h:26 | the rounding of the model is roundTiesToEven (section 4.3.1 of IEEE 754-2019): no finite number is nearer, and on a tie the even significand is taken |
| Binary32.RoundKeeps | src/app/numeric/x86/float32x4_x86.h:26 | representable numbers are kept |
| Binary32.Extremes | src/app/numeric/x86/float32x4_x86.h:26 | the format: the largest number is FLT_MAX and the smallest positive one 2^-149 |
| Binary32.RoundsToInteger | src/app/numeric/x86/float32x4_x86.h:22-28 | between 2^23 and 2^24 rounding to binary32 rounds to an integer, ties to even |
| Binary32.RintPsIsExact | src/app/numeric/x86/float32x4_x86.h:22-28 | adding and subtracting the signed 2^23 is roundToIntegralTiesToEven (section 5.9 of IEEE 754-2019) for every finite input, up to the sign of zero |
| Binary32.CeilAndFloorAreExact | src/app/numeric/x86/float32x4_x86.h:205-228 | the one-unit corrections give the exact ceiling and floor of every finite input |
| Binary32.TruncIsExact | src/app/numeric/x86/float32x4_x86.h:238-254 | the correction toward zero gives the exact truncation of every finite input |
| Placement.Binary32RoundingQualifies | src/app/numeric/x86/float32x4_x86.h:22-28 | binary32 rounding is monotone and keeps integers below 2^24, which is all that the placement proofs use |
| Placement.PlaceIsExact | src/app/engine/MoveAndResizeOperation.cc:40-46 | for a work area of moderate size the float sums are exact: origin plus offset, within the free space |
| Placement.PlacedInsideWorkArea | src/app/engine/MoveAndResizeOperation.cc:40-43 | before the margin is added the rectangle lies inside the work area, and 0 and 1 align it exactly with the two edges |
| Placement.PlacedWithinOnePixel | src/app/engine/MoveAndResizeOperation.cc:36-46 | size and position are less than one pixel away from the exact product, and the exact position in the space left |
| Placement.PositionIsMonotone | src/app/engine/MoveAndResizeOperation.cc:43 | the position is monotone in the relative position |
| Placement.SizeIsMonotone | src/app/engine/MoveAndResizeOperation.cc:42 | the size is monotone in the relative size |
| Placement.GetWindowShadowMargin | src/app/win32/window.cc:23-24 | the two dependent stores leave the left and top shadow and the total shadow sizes |
| Placement.AddMarginIsExact | src/app/engine/MoveAndResizeOperation.cc:44 | the margin, converted to floats and added in floats, is added exactly when margin and sums stay below 2^24 |
| Placement.FinalPositionIsMonotone | src/app/engine/MoveAndResizeOperation.cc:43-44 | the final position is monotone in the relative position, whatever the margin |
| Placement.VisiblePlacement | src/app/engine/MoveAndResizeOperation.cc:44 | with such a margin added, the visible size is the computed size, and the visible position is the computed one exactly when the left and top shadows are zero |
| Placement.FreshBoundsMeaning | src/app/engine/MoveAndResizeOperation.cc:33-48 | the target lies inside the work area before the margin; for margins below 2^24 each coordinate that is handed over is the one of the target plus its own shadow width, and the visible size is that of the target |
| Placement.TargetAligns | src/app/engine/MoveAndResizeOperation.cc:36-46 | for the whole rectangle and each axis by its own fractions: 0 and 1 align to the left and right or top and bottom edge, a size of 1 fills the work area and one of 0 is empty; in between sizes and positions are less than one pixel away from the exact ones |
| Placement.AxesAreIndependent | src/app/engine/MoveAndResizeOperation.cc:36-48 | vertical fractions, edges and shadows never move or resize a window horizontally, nor the other way round |
| Placement.FloatsComputePlacement | src/app/engine/MoveAndResizeOperation.cc:40-43 | evaluated wholly on binary32 numbers with the fallback ceiling and floor, the formula gives the span of the results above |
| Placement.FloatsAddMargin | src/app/engine/MoveAndResizeOperation.cc:44-46 | so does the truncated float sum with the margin |
| Placement.FloatsComputeBounds | src/app/engine/MoveAndResizeOperation.cc:36-48 | the rectangle that is handed over is, lane by lane, the binary32 evaluation of the edges, fractions and shadows of its own axis |
| Placement.RelativeMoveAndResizeOperation.Execute | src/app/engine/MoveAndResizeOperation.cc:32-51 | an unknown monitor leaves everything as it was; otherwise bounds are computed once and every call hands over the stored ones |
| Placement.FirstExecutionFixesBounds | src/app/engine/MoveAndResizeOperation.cc:33-48 | the first execution on a known monitor, after any that failed, fixes the bounds for every later window |
| Placement.CachedBoundsFitExactly | src/app/engine/MoveAndResizeOperation.cc:33-50 | a later window, on the same work area, another or an unknown monitor, is moved to what an operation of its own would have given it exactly when its monitor is known and its target plus margin is that of the first window; on the same work area, when the shadow margins are equal; for margins below 2^24 |
| SimdLanes.PackedFormsRefineArrays | src/app/numeric/x86/int32x4_x86.h:42-85 | every expression of xy, zw, lane-wise operations, negation, setXY, setZW and concat over four-lane vectors has the same lanes in both SSE paths as in the array form, and two-lane values carry a copy of themselves |
| SimdLanes.PackedAgrees4 | src/app/numeric/x86/int32x4_x86.h:72-85 | the SSE2 path also holds for values made of scalars; the SSE4.1 path holds wherever the operand of setZW carries its copy |
| SimdLanes.PackedAgrees2 | src/app/numeric/x86/int32x4_x86.h:42-59 | the same for two-lane values, with the upper lanes they carry |
| SimdLanes.SettingUpperHalfExactly | src/app/numeric/x86/int32x4_x86.h:79-85 | blending the upper half is right exactly when the operand carries its copy; for two scalars exactly when both are zero |
| SimdLanes.BlendsMeaning | src/app/numeric/x86/int32x4_x86.h:72-85 | what the two blend masks do |
| SimdLanes.ArrayVec.SetXY | src/app/numeric/common.h:131-134 | the lower lanes change, the upper stay |
| SimdLanes.ArrayVec.SetZW | src/app/numeric/common.h:135-138 | the upper lanes change, the lower stay |
| SimdLanes.ArrayVec.Assign | src/app/numeric/common.h:195-212 | compound assignment lane by lane, also when the operand is the vector itself |
| SimdLanes.PackedVec.SetXY | src/app/numeric/x86/int32x4_x86.h:72-78 | both paths take the lower lanes of the operand |
| SimdLanes.PackedVec.SetZW | src/app/numeric/x86/int32x4_x86.h:79-85 | SSE2 takes the lower and SSE4.1 the upper lanes of the operand |
| SimdLanes.ArrayShadowMargin | src/app/win32/window.cc:23-24 | the two statements on plain arrays, in place, leave the array value of the margin expression |
| SimdLanes.PackedShadowMargin | src/app/win32/window.cc:23-24 | the same statements on packed vectors leave the packed value, in both paths |
| SimdLanes.MarginInEveryForm | src/app/win32/window.cc:23-24 | the shadow margin is the same in all three forms, whatever the result held before, and equals the plain formula when that needs no more than 32 bits |
| Random.StepIsInjective | src/app/utility/random.h:26-32 | a xorshift step permutes the words of its width and only zero goes to zero; for any width and positive shifts |
| Random.GeneratorsAreValid | src/app/utility/random.h:18-65 | both generators of the source are such generators |
| Random.StepsInNumbers | src/app/utility/random.h:16-66 | one step of each generator in plain numbers: the two left shifts as products modulo the word size, the right shift as a quotient, with the three constants, and the state for a zero seed |
| Random.BitOfXor | src/app/utility/random.h:28-66 | a bit of an exclusive or is set exactly when the two bits differ |
| Random.StreamMeaning | src/app/utility/random.h:22-32 | from any seed no state is zero, two streams agree at a step exactly when they start alike, and the first state to come back is the start |
| Random.XorRightIsInjective | src/app/utility/random.h:29 | xor with a right shift loses nothing |
| Random.XorLeftIsInjective | src/app/utility/random.h:28 | xor with a cut left shift loses nothing |
| Random.Xorshift.constructor | src/app/utility/random.h:22-24 | a zero seed is replaced |
| Random.Xorshift.Next | src/app/utility/random.h:26-32 | the three compound assignments are one step |
| Random.Mix32IsInjective | src/app/utility/random.h:79-84 | the 32-bit mixer loses nothing |
| Random.Mix64IsInjective | src/app/utility/random.h:98-103 | the 64-bit mixer loses nothing |
| Random.Seed32IsInjective | src/app/utility/random.h:76-85 | with one thread two seeds agree exactly when the low words of the timestamps do; with one timestamp, exactly when the threads do |
| Random.Seed64IsInjective | src/app/utility/random.h:96-104 | the same for whole timestamps |
| ProcessBuffer.AlignDownIsLargest | src/app/win32/process.cc:11-19 | the result is the largest 128 * 4^k not above the argument |
| ProcessBuffer.NextGrows | src/app/win32/process.cc:57 | the next size is larger and never jumps over 32768 |
| ProcessBuffer.SizesMeaning | src/app/win32/process.cc:54-58 | from any start the sizes grow and end with 32768 |
| ProcessBuffer.FirstSizes | src/app/win32/process.cc:11-19 | from a small capacity the sizes 128, 512, 2048, 8192 and 32768 are tried |
| ProcessBuffer.SettleMeaning | src/app/win32/process.cc:59-62 | the answer taken is that of the first size that was not refused as too small |
| ProcessBuffer.GetProcessImageNameFromHandle | src/app/win32/process.cc:23-68 | the loop returns that answer: a name, or its error with what the string holds in either build |
| ProcessBuffer.NameFoundExactly | src/app/win32/process.cc:51-68 | from any starting capacity a name is returned exactly when it fits the largest buffer |
| Triggers.ReadSequence | src/app/settings/TriggerFlags.cc:76-83 | the accumulation loop reads the flags that the entries name |
| Triggers.SpellingsNameFlags | src/app/settings/TriggerFlags.cc:24-33 | a text names a flag exactly when it is the name of the flag in any case |
| Text.SameLetterExactly | src/app/settings/TriggerFlags.cc:24-33 | names are compared so that two characters are the same exactly when they are equal or one is the capital of the other among the letters from a to z |
| Triggers.FlagTexts | src/app/settings/TriggerFlags.cc:24-33 | "init", "focus" and "show", in any case, name the three flags |
| Triggers.EditReads | src/app/settings/TriggerFlags.cc:125-146 | after an edit exactly the requested flags are read |
| Triggers.EditPreserves | src/app/settings/TriggerFlags.cc:125-146 | unrecognised and still requested entries keep order and spelling, ahead of what is added |
| Triggers.AddedAreMissingNames | src/app/settings/TriggerFlags.cc:137-146 | what is appended are the names of the missing requested flags, each of them, in enumeration order |
| Triggers.ValueStaysValueExactly | src/app/settings/TriggerFlags.cc:112-159 | a list stays a list; a single value stays a value exactly when one entry is left, and then which text it has |
| Triggers.EditOfMatchingList | src/app/settings/TriggerFlags.cc:125-146 | a list that already reads as requested is left alone |
| Triggers.ReadAfterWrite | src/app/settings/TriggerFlags.cc:64-159 | reading after writing gives the set that was written, for every writable node |
| Triggers.WriteIsIdempotent | src/app/settings/TriggerFlags.cc:91-159 | writing twice equals writing once |
| Triggers.WriteKeepsOthers | src/app/settings/TriggerFlags.cc:100-111 | other keys keep order and contents, and a new list stands right before "where" |
| Triggers.WriteKeepsParsing | src/app/settings/Rule.cc:10-48 | a rule that could be read can be read after its flags were written, under the same name |
| Triggers.SequenceNode.AppendChild | src/app/settings/TriggerFlags.cc:144 | appends at the end |
| Triggers.SequenceNode.RemoveChild | src/app/settings/TriggerFlags.cc:132 | removes one child |
| Triggers.SequenceNode.RemoveMatching | src/app/settings/TriggerFlags.cc:35-53 | removing while walking visits every original child once and drops just the matching ones |
| Triggers.SequenceNode.ContainsFlag | src/app/settings/TriggerFlags.cc:55-62 | finds a child that names the flag if there is one |
| Triggers.Rule.Make | src/app/settings/Rule.cc:10-30 | a rule node without a filter key or an action key, with a container as name or with a trigger list that is no list raises the parse error, and no other |
| Triggers.Rule.constructor | src/app/settings/Rule.cc:24-35 | the cached name and flags are those of the node |
| Triggers.Rule.RemoveUnrequested | src/app/settings/TriggerFlags.cc:125-135 | the removing loop leaves the entries of requested or no flags |
| Triggers.Rule.AppendMissing | src/app/settings/TriggerFlags.cc:137-146 | the appending loop completes the edit |
| Triggers.Rule.WriteTriggersToNode | src/app/settings/TriggerFlags.cc:91-159 | the write path in place equals the specified node |
| Triggers.Rule.SetTriggerFlags | src/app/settings/Rule.cc:37-48 | cache and node change together, and not at all for an equal set |
| MatchPattern.WriteAfterRead | src/app/settings/NodeHelper.cc:160-232 | writing a just-read pattern gives back the text, for every text |
| MatchPattern.NotationReads | src/app/settings/NodeHelper.cc:160-200 | the documented notation: ^ and $ around a text mean equals, a leading ^ starts-with, a trailing $ ends-with, and neither contains |
| MatchPattern.ReadAfterWrite | src/app/settings/NodeHelper.cc:160-232 | reading a just-written pattern gives it back exactly when: equals always, starts-with without a final dollar sign, ends-with without a leading caret, contains with neither |
| MatchPattern.ReadText | src/app/settings/NodeHelper.cc:174-195 | the reader that moves a start and a length |
| MatchPattern.WriteText | src/app/settings/NodeHelper.cc:209-231 | the writer that edits a buffer |
| SettingsTree.FilterSetAgreesExactly | src/app/settings/Filter.cc:12-52 | in every state a value that is set is cached, and a fresh filter reads it exactly when it survives the notation, whatever was set before; the other fields and keys are untouched |
| SettingsTree.ValidMeansConsistent | src/app/settings/Filter.cc:31-37 | a filter agrees with its document exactly when its values stand there as written and survive the notation, as those of a filter just read do |
| MatchPattern.ReadIsSafe | src/app/settings/NodeHelper.cc:160-196 | reading yields only patterns that survive the notation |
| SettingsTree.Filter.Make | src/app/settings/Filter.cc:25-37 | the parse errors of a filter node |
| SettingsTree.Filter.constructor | src/app/settings/Filter.cc:31-37 | the cached patterns are those of the node |
| SettingsTree.Filter.Set | src/app/settings/Filter.cc:12-52 | cache and node change together; the empty pattern removes the key |
| SettingsTree.WrittenNumberReads | src/app/settings/action/MoveAndResize.cc:58-104 | a number whose text is read back exactly and that is written through its cache is read back from the node, and other keys are untouched |
| ActionSettings.TypeNamesRoundTrip | src/app/settings/Action.cc:9-14 | every action type is read back from its name |
| ActionSettings.TypesRead | src/app/settings/Action.cc:9-39 | the type is read under its key by its two documented names, in any case |
| ActionSettings.AbsoluteNumbers | src/app/settings/action/MoveAndResize.cc:24-56 | each number of an absolute action is read under its own key with its own default and range |
| ActionSettings.RelativeNumbers | src/app/settings/action/MoveAndResize.cc:112-147 | likewise the fractions of a relative one, from 0 to 1 |
| ActionSettings.MonitorNumbers | src/app/settings/action/MoveAndResize.cc:148-155 | the monitor number is read from 1 to 16, and none is zero |
| ActionSettings.ChangeTypeMeaning | src/app/settings/Action.cc:41-81 | after a type change the new type is read, the fields that the left type owned are gone and all other keys keep value and order |
| ActionSettings.ExactCodecExists | src/app/settings/NodeHelper.cc:66-124 | there are formats whose texts of all 32-bit integers and all finite binary32 numbers are read back exactly, which is what the next results ask of the YAML library |
| ActionSettings.SetAbsoluteAgrees | src/app/settings/action/MoveAndResize.cc:58-104 | a live absolute detail object stays equal to a fresh one after its setters |
| ActionSettings.SetRelativeAgrees | src/app/settings/action/MoveAndResize.cc:185-231 | the same for the fractions of a relative one, in step with its node or not only for its name |
| ActionSettings.SetIdAgrees | src/app/settings/action/MoveAndResize.cc:157-176 | likewise for the monitor number, which zero removes |
| ActionSettings.SetNameAgreesExactly | src/app/settings/action/MoveAndResize.cc:178-183 | after a monitor name is set, whatever name stood there before, the live object agrees with a fresh one exactly when the pattern survives the notation |
| ActionSettings.AgreesMeansConsistent | src/app/settings/action/MoveAndResize.cc:117-183 | the live objects agree with their node exactly when the node holds what they hold, the name as it is spelled, and the name survives the notation |
| ActionSettings.BoundsAfterTypeChange | src/app/settings/action/MoveAndResize.cc:24-56 | a detail object made right after a type change has the default bounds |
| ActionSettings.OpenAgrees | src/app/settings/Action.h:32-37 | making a detail object yields the fresh one if there is one |
| ActionSettings.RunAgreesExactly | src/app/settings/Action.cc:41-81 | after any sequence of type changes and setters with any names, the live objects agree with fresh ones exactly when the monitor name then held survives the notation |
| ActionSettings.RunKeepsUnknown | src/app/settings/Action.cc:41-81 | no sequence touches value or order of unknown keys |
| ActionSettings.Action.Make | src/app/settings/Action.cc:16-39 | the parse error of an action node |
| ActionSettings.Action.AsAbsolute | src/app/settings/Action.h:32-37 | another type raises invalid argument, an unreadable number a parse error |
| ActionSettings.Action.AsRelative | src/app/settings/Action.h:32-37 | the same for the relative detail |
| ActionSettings.Action.SetKind | src/app/settings/Action.cc:41-81 | the type change in place equals the specified node |
| ActionSettings.AbsoluteDetail.constructor | src/app/settings/action/MoveAndResize.cc:24-56 | reads the four numbers with their ranges and defaults |
| ActionSettings.AbsoluteDetail.Set | src/app/settings/action/MoveAndResize.cc:58-104 | write-through of one number |
| ActionSettings.RelativeDetail.constructor | src/app/settings/action/MoveAndResize.cc:115-155 | reads number, name and the four fractions |
| ActionSettings.RelativeDetail.SetMonitorId | src/app/settings/action/MoveAndResize.cc:157-176 | write-through of the monitor number |
| ActionSettings.RelativeDetail.SetMonitorName | src/app/settings/action/MoveAndResize.cc:178-183 | write-through of the monitor name |
| ActionSettings.RelativeDetail.Set | src/app/settings/action/MoveAndResize.cc:185-231 | write-through of one fraction |
| RuleEngine.EmptyIsTautology | src/app/compiler/filter/ProcessImageNameMatcher.cc:18-28 | an empty value of any kind but equals matches every text |
| RuleEngine.MatchesMeaning | src/app/compiler/filter/ProcessImageNameMatcher.cc:8-30 | the four evaluation functions in terms of concatenation: equal, the text at the start, at the end, or anywhere |
| RuleEngine.ConditionMeansFilter | src/app/compiler/filter/CompileFilter.cc:9-28 | the compiled condition holds exactly when every pattern of the filter, in terms of concatenation, fits the window, dropped conditions included |
| RuleEngine.CompileFilter | src/app/compiler/filter/CompileFilter.cc:9-28 | the bounded vector holds the condition, or overflows |
| RuleEngine.CapacityMeansTwoFields | src/app/compiler/filter/CompileFilter.cc:9-28 | the condition fits exactly when not all three fields are active |
| RuleEngine.CompileRule | src/app/compiler/CompileRule.cc:11-28 | the appending loop gives the compiled rules or the first error |
| RuleEngine.CompilesExactly | src/app/compiler/CompileRule.cc:11-28 | compilation succeeds exactly when every rule is readable and, if its action resolves, has at most two active fields; otherwise the first rule that is not decides the error |
| RuleEngine.UnreadableExactly | src/app/compiler/CompileAction.cc:11-38 | an action raises a parse error exactly when a field of its type is no number in range or its monitor name is a container |
| RuleEngine.ResolveMeaning | src/app/compiler/CompileAction.cc:11-38 | there is no operation exactly without a type or for an unknown monitor; otherwise its four bounds are the numbers that stand under their keys and its monitor is that of the number that stands there |
| RuleEngine.CompiledRulesMeanSettings | src/app/engine/RuleEngine.cc:20-45 | running the compiled rules executes exactly the operations, in order, that reading triggers, filters and actions directly gives, with patterns understood as concatenations |
| RuleEngine.EngineFollowsLastInstallable | src/app/engine/RuleEngine.cc:47-60 | after any history of settings the program has ended exactly when the parse error of some document escaped, and the rules in force are those of the last installable document before the first such one |
| RuleEngine.OverfullRuleKeepsOldSet | src/app/engine/RuleEngine.cc:51-59 | a resolvable rule of three active fields keeps the old rules in force: memory runs out unless an earlier unreadable rule, which is the first that cannot be compiled, ends the program |
| RuleEngine.Engine.OnSettingsChanged | src/app/engine/RuleEngine.cc:47-60 | installs, keeps the old set on overflow, terminates on a parse error that escapes, and does nothing after that |
| RuleEngine.Engine.CheckRules | src/app/engine/RuleEngine.cc:20-45 | the nested loops with the matched flag execute just the matching rules |
| LogMirror.ContentsAreNewest | src/app/logging/Logger.cc:24-36 | the ring, read from its front, is the newest logs of the whole history |
| LogMirror.SlotHoldsLatest | src/app/logging/Logger.cc:26-34 | a cell holds the newest of the logs that were stored in it |
| LogMirror.UpdateInv | src/winui3/ViewModels/Logging/LogsViewModel.cc:56-68 | one delivery inserts what its cell holds now and drops the oldest entry of a full view |
| LogMirror.EveryEntryIsExactlyTimely | src/winui3/ViewModels/Logging/LogsViewModel.cc:46-68 | for every schedule of logs and updates an entry of the view is right if its update ran while at most a capacity of updates waited, and with distinct logs only then |
| LogMirror.FirstUpdateIsLateExactly | src/winui3/ViewModels/Logging/LogsViewModel.cc:46-68 | late entries occur for every capacity: after any logs in a row the first update is late exactly when there are more logs than cells, and with one too many it shows the last log instead of the first |
| LogMirror.TimelyViewMirrorsRing | src/winui3/ViewModels/Logging/LogsViewModel.cc:46-68 | with timely updates the view is the newest of the delivered logs, newest first; drained, it equals the ring |
| LogMirror.OpenedInv | src/winui3/ViewModels/Logging/LogsViewModel.cc:21-33 | a view opened at any time starts as the newest logs |
| LogMirror.Logger.constructor | src/app/logging/Logger.cc:20-22 | an empty ring |
| LogMirror.Logger.AddLog | src/app/logging/Logger.cc:24-36 | one push over the oldest cell of a full ring and the change that is notified |
| LogMirror.LogsViewModel.constructor | src/winui3/ViewModels/Logging/LogsViewModel.cc:21-33 | copies the ring from its front |
| LogMirror.LogsViewModel.OnCollectionChanged | src/winui3/ViewModels/Logging/LogsViewModel.cc:46-68 | queues the change |
| LogMirror.LogsViewModel.RunNext | src/winui3/ViewModels/Logging/LogsViewModel.cc:56-68 | insertion at 0, then removal at the end |
| LogMirror.AddLogAndNotify | src/app/logging/Logger.cc:24-36 | push and notification are one step of the schedule |
| RuleEditor.UsedAndUnusedPartition | src/winui3/ViewModels/Settings/RuleViewModel.cc:201-267 | after any sequence of add, edit, delete and apply each key is shown or offered but not both, and the offered keys stand in list order |
| RuleEditor.ApplyAfterAnyRun | src/winui3/ViewModels/Settings/RuleViewModel.cc:164-194 | after applying, each shown key has the shown setting, each offered key the empty one, and applying again changes nothing |
| RuleEditor.EditorRefinesMap | src/winui3/ViewModels/Settings/RuleViewModel.cc:164-267 | the editor refines a map from keys to patterns: after any commands it shows what they ask for, and after an apply every key has just the setting that is shown for it, or the empty one |
| RuleEditor.NotPendingMeansInSync | src/winui3/ViewModels/Settings/RuleViewModel.cc:147-162 | no pending changes means that there is nothing to save |
| RuleEditor.ApplyChangesNothingExactly | src/winui3/ViewModels/Settings/RuleViewModel.cc:147-194 | in every run applying changes no setting exactly when each pending entry shows its setting and each key to be cleared has the empty pattern |
| RuleEditor.VoidApplyKeepsTextsExactly | src/winui3/ViewModels/Settings/RuleViewModel.cc:164-194 | then it changes no text of the document either, exactly when no empty text is written or cleared |
| RuleEditor.ApplyKeepsFilterExactly | src/winui3/ViewModels/Settings/RuleViewModel.cc:164-194 | in every run applying leaves settings and document, order included, exactly when it changes no setting, touches no empty text, and the cleared filters that it stores again already stand last in the document in the order in which they are shown |
| RuleEditor.StoreMovesRestored | src/winui3/ViewModels/Settings/RuleViewModel.cc:164-194 | clearing and storing what the document already says puts the cleared children behind all others, in storing order, and moves nothing else |
| RuleEditor.PendingWithoutChange | src/winui3/ViewModels/Settings/RuleViewModel.cc:201-267 | adding and deleting any key without a filter leaves a change pending that changes nothing |
| RuleEditor.ReopenAfterApply | src/winui3/ViewModels/Settings/RuleViewModel.cc:96-131 | opening the editor after applying shows exactly the keys whose shown pattern is not the empty one |
| RuleEditor.OpenedInv | src/winui3/ViewModels/Settings/RuleViewModel.cc:109-130 | the constructor shows exactly the keys that have a filter |
| RuleEditor.AddInv | src/winui3/ViewModels/Settings/RuleViewModel.cc:201-228 | adding moves one key from offered to shown |
| RuleEditor.DeleteInv | src/winui3/ViewModels/Settings/RuleViewModel.cc:235-267 | deleting moves one key from shown to offered |
| RuleEditor.EditInv | src/winui3/ViewModels/Settings/StringFilterViewModel.cc:123-133 | editing keeps the partition |
| RuleEditor.ApplySyncs | src/winui3/ViewModels/Settings/RuleViewModel.cc:164-194 | clearing first and storing then puts settings in step, also for keys deleted and added again |
| RuleEditor.ApplyAgreesExactly | src/winui3/ViewModels/Settings/SettingsWinRTConverters.cc:69-92 | after any run and an apply, safe or not before, the settings agree with their document exactly when every shown pattern survives the notation |
| RuleEditor.RemoveFromWithout | src/winui3/ViewModels/Settings/RuleViewModel.cc:204-216 | removing an offered key in place gives the list without it, in order |
| RuleEditor.InsertIntoWithout | src/winui3/ViewModels/Settings/RuleViewModel.cc:244-261 | inserting after the offered keys that precede it gives the list with it, in order |
| RuleEditor.StringFilterViewModel.constructor | src/winui3/ViewModels/Settings/StringFilterViewModel.cc:83-105 | a new element is pending and empty, another shows its setting |
| RuleEditor.StringFilterViewModel.SetValueMatchType | src/winui3/ViewModels/Settings/StringFilterViewModel.cc:123-127 | pending only when the type changes |
| RuleEditor.StringFilterViewModel.SetValue | src/winui3/ViewModels/Settings/StringFilterViewModel.cc:129-133 | pending only when the value changes |
| RuleEditor.StringFilterViewModel.ApplyChanges | src/winui3/ViewModels/Settings/StringFilterViewModel.cc:113-121 | stores a pending value, else does nothing |
| RuleEditor.PartitionKeys | src/winui3/ViewModels/Settings/RuleViewModel.cc:109-130 | the constructor loop |
| RuleEditor.CountOfferedBefore | src/winui3/ViewModels/Settings/RuleViewModel.cc:244-257 | the nested loops count the offered keys that precede one |
| RuleEditor.RuleViewModel.constructor | src/winui3/ViewModels/Settings/RuleViewModel.cc:96-131 | the opened editor |
| RuleEditor.RuleViewModel.HasPending | src/winui3/ViewModels/Settings/RuleViewModel.cc:147-162 | true exactly when a deletion or a shown filter is pending |
| RuleEditor.RuleViewModel.OnAddFilterRequested | src/winui3/ViewModels/Settings/RuleViewModel.cc:201-228 | adds an offered key in place or raises invalid argument and changes nothing |
| RuleEditor.RuleViewModel.OnDeleteRequested | src/winui3/ViewModels/Settings/RuleViewModel.cc:235-267 | deletes a shown key in place or raises invalid argument and changes nothing |
| RuleEditor.RuleViewModel.SetValueMatchTypeAt | src/winui3/ViewModels/Settings/StringFilterViewModel.cc:123-127 | editing one object edits one entry |
| RuleEditor.RuleViewModel.SetValueAt | src/winui3/ViewModels/Settings/StringFilterViewModel.cc:129-133 | editing one object edits one entry |
| RuleEditor.RuleViewModel.ClearDeleting | src/winui3/ViewModels/Settings/RuleViewModel.cc:167-175 | clears the settings of the deleted keys |
| RuleEditor.RuleViewModel.StoreFilters | src/winui3/ViewModels/Settings/RuleViewModel.cc:181-185 | stores the pending filters |
| RuleEditor.RuleViewModel.ApplyChanges | src/winui3/ViewModels/Settings/RuleViewModel.cc:164-194 | the whole apply, reporting whether anything was pending |
| SavedRules.AppliedRuleActsAsShown | src/app/compiler/CompileRule.cc:11-28 | after any run and an apply, and with any rules before and after it, the document compiles exactly when at most two of the shown filters say something and the other rules compile; the engine then runs its operation, between those of the rules before and after it, exactly when the trigger is set and every shown filter passes the window |
| SavedRules.SavedRuleReadsBackExactly | src/app/settings/Filter.cc:12-52 | reading the saved nodes anew always gives a rule, and it is the rule in memory exactly when every shown pattern survives the notation |
| SavedRules.SavedRuleActsAsShown | src/app/compiler/CompileRule.cc:11-28 | saved, read anew and compiled among any other rules, a rule whose shown patterns survive the notation acts as shown |
| SavedRules.SavedRuleActsAsReread | src/app/compiler/CompileRule.cc:11-28 | saved, read anew and compiled among any other rules, whatever the shown patterns, a rule acts as if each of them were the pattern that its written text is read as |
| SavedRules.MakeRule | src/app/settings/Rule.cc:10-35 | the constructors of rule, filter and action succeed exactly when none of their nodes raises a parse error, and the three objects hold what reading the nodes gives |
| WrittenRules.WrittenAbsoluteRule | src/app/compiler/CompileRule.cc:11-28 | a rule written as documented, with a title pattern and an absolute action, runs exactly on its trigger for the windows whose title starts with the text, and moves them to the written numbers |
| WrittenRules.WrittenRelativeRule | src/app/compiler/CompileRule.cc:11-28 | likewise with process and class patterns and a relative action on a numbered monitor, which must be known |
| SavedRules.InSyncMeansExpected | src/app/compiler/filter/CompileFilter.cc:9-28 | settings in step with the editor accept exactly the expected windows, and their active fields are the shown filters that say something |
| SavedRules.OneRuleRuns | src/app/compiler/CompileRule.cc:11-28 | in any document a rule with a known operation fits exactly when its condition does, runs exactly for its triggers and windows, and leaves the operations of the other rules and their order as they are without it; if only its condition does not fit, compiling runs out of memory |
| WindowCache.CacheIsInvisible | src/app/window/WindowStateWatcher.cc:33-58 | over every history in which each change is delivered before the next reading that depends on it, every reading gets the answer that asking the system would give |
| WindowCache.FetchIsFreshExactly | src/app/window/WindowState.cc:21-42 | a getter answers as the system would exactly when what it keeps is current; an error leaves the entry dirty |
| WindowCache.RunKeepsInv | src/app/window/WindowStateCache.cc:6-30 | in every history a kept value whose event is not owed is the value in force |
| WindowCache.DestroyedHandleStartsFresh | src/app/window/WindowStateCache.cc:10-12 | a destroy event removes the entry exactly when its identifiers are those of the window itself and the handle is its own root; the next entry is new and all its readings are fresh |
| WindowCache.ChildWindowOutlivesItself | src/app/window/WindowStateWatcher.cc:34-48 | an entry made for a foreground window that is not its own root outlives it, and the next window with that handle is taken for the old one |
| WindowCache.EntryStays | src/app/window/WindowStateCache.cc:6-30 | nothing but an accepted destroy event for its handle removes an entry, in any continuation of any history |
| WindowCache.ChildEntryStaysForGood | src/app/window/WindowStateWatcher.cc:42-58 | so the entry of a window that is never its own root is never removed and keeps answering its class |
| WindowCache.State.constructor | src/app/window/WindowState.h:9-19 | a new entry is dirty in every aspect |
| WindowCache.State.HMonitor | src/app/window/WindowState.cc:21-28 | filled when null |
| WindowCache.State.GetShadowMargin | src/app/window/WindowState.cc:30-42 | kept unless the query failed |
| WindowCache.State.GetWindowClass | src/app/window/WindowState.cc:44-70 | loaded once |
| WindowCache.State.GetProcessName | src/app/window/WindowState.h:33-38 | loaded once |
| WindowCache.State.GetWindowTitle | src/app/window/WindowState.cc:72-106 | an empty title is answered but not kept; an error leaves the entry dirty |
| WindowCache.State.InvalidateWindowLocation | src/app/window/WindowState.h:40-43 | marks monitor and margin |
| WindowCache.State.InvalidateWindowTitle | src/app/window/WindowState.h:44-46 | marks the title |
| WindowCache.StateCache.TryGetOrCreate | src/app/utility/ValueCache.h:85-92 | the existing state, a new one, or null without memory |
| WindowCache.StateCache.ProcessEvent | src/app/window/WindowStateCache.cc:6-30 | removes or marks the one entry; a foreground event does nothing |
| WindowCache.StateCache.WinEventProc | src/app/window/WindowStateWatcher.cc:24-59 | the whole dispatch, with the fall-through of a foreground event |
| LiveRules.Evaluate | src/app/engine/RuleEngine.cc:33-39 | the inner loop asks the getters of the cached window in order and breaks off at the first predicate that does not hold |
| LiveRules.CheckRules | src/app/engine/RuleEngine.cc:20-45 | the loop over the rules through the cached getters, each of which may load its text; a getter that throws ends the program |
| LiveRules.CheckMeansExecuted | src/app/engine/RuleEngine.cc:20-45 | on an entry that is current, a check in which no getter throws runs exactly the operations that the rules give for what the system shows, and leaves the entry as current as it was; none throws when the system gives all three texts |
| LiveRules.ChecksExactly | src/app/window/WindowStateWatcher.cc:33-56 | rules are checked at every foreground event and every accepted show event, unless there is neither an entry nor memory for one |
| LiveRules.RunsWhatSettingsSay | src/app/engine/RuleEngine.cc:20-67 | over every history of settings, window events and changes of the system in which no event is owed at a check, a program that has not ended has run exactly the operations that the settings in force give for what the system shows, without cache and compiler; if the system always answers, it has ended exactly when the parse error of a document escaped |
| LiveRules.EventAdds | src/app/engine/RuleEngine.cc:62-68 | after any prompt history a foreground event adds exactly what the settings in force give for focus, a show event of a root window itself what they give for show, and nothing else adds anything |
| LiveRules.OtherTriggersAddNothing | src/app/engine/RuleEngine.cc:62-68 | rules without the show trigger are not run by a window that is shown, and rules without the focus trigger not by one that comes to the front |
| LiveRules.InitRulesNeverRun | src/app/engine/RuleEngine.cc:62-68 | no event checks the trigger for the start of the application: rules that have no other trigger never run, in any history |

## Left out

- Calls into Windows, DWM and the display configuration: their answers are parameters.
- Overlapping starts and stops of one controller: calls are taken one after the other; the worker is free to run in between.
- A retry limit of zero, which no instance in the program has: runs keep their invariant with it, but that stops finish is stated for at least one attempt.
- Handles are numbered in the order of their creation; that the system reuses numbers is not modelled.
- Failed allocations of retry states and factories, which terminate the program; memory orders of atomics.
- Handshake: modelled as a state machine on values whose steps are the accesses to the shared context; the contents of the message loop are one step. After a failure the starter waits for its worker to exit; a wait that ends otherwise ends the program under the fail-fast policy, which both controllers use, and is no step. The policy that returns is followed in ThreadController and Controllers only.
- Backoff: the generic float scaler and constant delays of INFINITE; the distribution object is reduced to a word modulo the size of its range.
- Binary32: infinities, NaN and the sign of zero; flags and other rounding modes. Rounding functions are ghost functions on reals because Dafny has no binary32 type.
- Placement: work areas whose edges binary32 does not represent, and the last truncation beyond 32 bits. Margins and sums of 2^24 and more are added with rounding; their exact result is not characterised beyond monotonicity.
- SimdLanes: packed shifts and comparisons, whose padding lanes have no uniform form; three-lane values; negating the smallest integer in the array form, which the model lets wrap as the packed form does. Constant-folded halves are the scalars of `Make2`.
- `_lround`, which adds one half in float rounding and differs from std::lround just below one half.
- Random: reading the time-stamp counter; period lengths. The two generator classes are one class with a width and three shifts.
- ProcessBuffer: opening the process, the application host and its child windows.
- Settings text: parsing and emitting YAML, null-like scalars, and conversion between UTF-8 and UTF-16 are taken as inverse pairs; printing and reading 32-bit integers and finite binary32 numbers is taken to be exact, as `ActionSettings.ExactCodec` states; that this can be met is `ActionSettings.ExactCodecExists`.
- ActionSettings: more than one live detail object of one action; objects made before a type change are not followed.
- Setter preconditions are the range assertions of the code; keys of one node are taken to be distinct (section 3.2.1.1 of YAML 1.2).
- The default branches of switches over enumerations, which no value of the model reaches.
- RuleEngine: effects of one operation on later predicates; getters that throw while a predicate is evaluated are followed in LiveRules only. Overflow of the bounded vector is taken to raise the allocation error that the engine catches; Boost is not part of this model.
- RuleEditor: the action and trigger children of the same view model, captions, callbacks and change notifications.
- RuleEditor.RuleViewModel.HasPending: does not include pending changes of the action and of the triggers, whose view models are not modelled.
- RuleEditor.RuleViewModel.ApplyChanges: does not apply the action and the triggers, for the same reason.
- LiveRules: settings arrive between events, not during one, and the engine has its context from the start; what an operation does to the window arrives as a later change of the system.
- A rule, filter or action node that is no map, which raises a parse error of its own.
- LogMirror: a queue that refuses a callback, a view that is gone when its callback runs, and logs added while a view is being opened; the ring's storage order is that of Boost's circular buffer, which is not part of this model.
- WindowCache: conversion of the margin to floats, a title that changes between the two calls that read it, and a margin query that fails with a last error of zero.
- WindowCache.FetchIsFreshExactly: does not say what a title field holds after a failed query, because the entry stays dirty and the field is not readable.
- Windows, XAML, converters, flyouts, navigation, resources, files, tray icon, process mitigations and message texts.
