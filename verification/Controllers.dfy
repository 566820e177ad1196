/** The two concrete controllers built on the thread controller, over whole runs of calls. */
module Controllers {
  import opened Wrappers
  import Handshake
  import opened Win32
  import opened Backoff
  import opened ThreadController

  /** Installed by the constructors; one attempt, one second. */
  const DEFAULT_RETRY := RetryFactory(1, Fixed(1000))

  /** Installed after every successful start. */
  const EXIT_RETRY := RetryFactory(5, Exponential(1000, 10000, X2, Half))

  function ValidateThreadAccess(data: Option<ThreadInfo>, caller: Dword): HResult {
    if data.None? then HResultFromWin32(ERROR_INVALID_OPERATION)
    else if caller == data.value.threadId then HResultFromWin32(ERROR_POSSIBLE_DEADLOCK)
    else S_OK
  }

  // ---- shared start and stop sequences ---------------------------------------

  /** `published` is what the worker reported through its start context. */
  datatype StartAnswers = StartAnswers(create: CreateAnswer, published: HResult, wait: WaitAnswer, reap: ReapAnswer)

  function StartSequence(c: Controller, a: StartAnswers): (Controller, HResult) {
    var (c1, hr) := StartStep(c, true, a.create);
    if Failed(hr) || c1.data.None? then (c1, hr)
    else if a.published != S_OK then
      (ReapAfterStartFailureStep(c1, c1.data.value.handle, a.wait, a.reap).0, a.published)
    else
      (c1.(retry := EXIT_RETRY), S_OK)
  }

  datatype StopAnswers = StopAnswers(caller: Dword, rounds: nat -> Round, reap: ReapAnswer)

  function StopSequence(c: Controller, a: StopAnswers): (Controller, HResult) {
    if c.state == Ready then (c, HResultFromWin32(ERROR_INVALID_OPERATION))
    else if c.data.None? then (c, HResultFromWin32(ERROR_INVALID_OPERATION))
    else if Failed(ValidateThreadAccess(c.data, a.caller)) then (c, ValidateThreadAccess(c.data, a.caller))
    else StopThreadStep(c.(state := Stopping), c.data.value.handle, a.rounds, a.reap)
  }

  lemma StartSequenceKeepsInv(c: Controller, a: StartAnswers)
    requires Inv(c)
    ensures Inv(StartSequence(c, a).0)
  {
    var c1 := StartStep(c, true, a.create).0;
    StartKeepsInv(c, true, a.create);
    if c1.data.Some? {
      StartFailureKeepsInv(c1, a.wait, a.reap);
    }
  }

  lemma StopSequenceKeepsInv(c: Controller, a: StopAnswers)
    requires Inv(c)
    ensures Inv(StopSequence(c, a).0)
  {
    if c.state != Ready {
      StopKeepsInv(c.(state := Stopping), a.rounds, a.reap);
    }
  }

  /** A stop by another thread brings any started controller back to ready exactly when some
      wait sees the worker exit and its handle closes; otherwise the handle stays recorded. */
  lemma StopFinishesExactly(c: Controller, a: StopAnswers)
    requires Inv(c) && c.state != Ready && c.retry.maxAttempts > 0
    ensures var (c', hr) := StopSequence(c, a);
      && (c'.state == Ready <==>
          a.caller != c.data.value.threadId
          && StopLoop(c.retry.maxAttempts, a.rounds, 0).sawExit
          && a.reap.close.Closed?)
      && (c'.state == Ready ==> hr == ExitStatus(a.reap.exit) && c'.closed == c.closed + [c.data.value.handle])
      && (c'.state != Ready ==> c'.data == c.data && c'.closed == c.closed)
      && (a.caller == c.data.value.threadId ==> c' == c && hr == HResultFromWin32(ERROR_POSSIBLE_DEADLOCK))
  {
    StopOutcome(c.(state := Stopping), a.rounds, a.reap);
  }

  // ---- runs of the event-hook controller --------------------------------------

  datatype Call = Start(start: StartAnswers) | Stop(stop: StopAnswers)

  /** Nothing runs after a fail-fast. */
  function HookStep(c: Controller, call: Call): Controller {
    if c.terminated then c
    else match call
      case Start(a) => StartSequence(c, a).0
      case Stop(a) => StopSequence(c, a).0
  }

  function HookRun(c: Controller, calls: seq<Call>): Controller {
    if calls == [] then c else HookStep(HookRun(c, calls[..|calls| - 1]), calls[|calls| - 1])
  }

  /** The factory of the constructor until a start succeeds, the exit factory from then on. */
  ghost predicate KnownRetry(c: Controller, retry: RetryFactory) {
    c.retry == retry || c.retry == EXIT_RETRY
  }

  lemma StepKeepsRetry(c: Controller, call: Call, retry: RetryFactory)
    requires KnownRetry(c, retry)
    ensures KnownRetry(HookStep(c, call), retry) && HookStep(c, call).policy == c.policy
  {
  }

  /** From any constructor and over every run with arbitrary system answers: the handle is invalid
      exactly when the controller is ready; handles are closed once each, in order of creation,
      after a wait saw their worker exit; and all but the newest are closed before a new one exists. */
  lemma {:induction false} HookRunIsSafe(retry: RetryFactory, policy: FailurePolicy, calls: seq<Call>)
    requires retry.policy.Valid()
    ensures var c := HookRun(Initial(retry, policy), calls);
      && Inv(c) && KnownRetry(c, retry) && c.policy == policy
      && (c.state == Ready <==> c.data.None?)
      && (forall i, j :: 0 <= i < j < |c.closed| ==> c.closed[i] < c.closed[j])
      && (forall h :: h in c.closed ==> h in c.seenExited)
      && (forall h: nat :: h < c.created ==> h in c.closed || (c.data.Some? && c.data.value.handle == h == c.created - 1))
  {
    var c0 := Initial(retry, policy);
    if calls != [] {
      HookRunIsSafe(retry, policy, calls[..|calls| - 1]);
      var c, call := HookRun(c0, calls[..|calls| - 1]), calls[|calls| - 1];
      StepKeepsRetry(c, call, retry);
      if !c.terminated {
        match call {
          case Start(a) => StartSequenceKeepsInv(c, a);
          case Stop(a) => StopSequenceKeepsInv(c, a);
        }
      }
    }
    ClosedHandlesOf(HookRun(c0, calls));
  }

  lemma ClosedHandlesOf(c: Controller)
    requires Inv(c)
    ensures forall i, j :: 0 <= i < j < |c.closed| ==> c.closed[i] < c.closed[j]
    ensures forall h :: h in c.closed ==> h in c.seenExited
    ensures forall h: nat :: h < c.created ==>
      h in c.closed || (c.data.Some? && c.data.value.handle == h == c.created - 1)
  {
    forall h: nat | h < c.created
      ensures h in c.closed || (c.data.Some? && c.data.value.handle == h == c.created - 1)
    {
      if h < |c.closed| {
        assert c.closed[h] == h;
      }
    }
  }

  /** A stop that does not bring the controller back to ready. */
  predicate Unfinished(c: Controller, a: StopAnswers)
    requires c.data.Some?
  {
    !(a.caller != c.data.value.threadId && StopLoop(c.retry.maxAttempts, a.rounds, 0).sawExit && a.reap.close.Closed?)
  }

  function StopCalls(stops: seq<StopAnswers>): (calls: seq<Call>)
    ensures |calls| == |stops|
  {
    seq(|stops|, i requires 0 <= i < |stops| => Stop(stops[i]))
  }

  /** Under the policy that returns, any number of unfinished stops keeps the worker recorded, and
      a later stop that sees it exit and closes its handle brings the controller back to ready. */
  lemma {:induction false} RepeatedStopsFinish(c: Controller, stops: seq<StopAnswers>, last: StopAnswers)
    requires Inv(c) && c.state != Ready && !c.terminated && c.policy == ReturnTimeout && c.retry.maxAttempts > 0
    requires forall i :: 0 <= i < |stops| ==> Unfinished(c, stops[i])
    ensures var d := HookRun(c, StopCalls(stops));
      && d.state != Ready && !d.terminated && d.data == c.data && d.closed == c.closed && d.retry == c.retry
      && d.policy == c.policy && Inv(d)
      && (!Unfinished(c, last) ==>
            && HookStep(d, Stop(last)).state == Ready
            && HookStep(d, Stop(last)).closed == c.closed + [c.data.value.handle])
  {
    hide StopLoop, Delays;
    if stops != [] {
      var n := |stops| - 1;
      RepeatedStopsFinish(c, stops[..n], last);
      assert StopCalls(stops)[..n] == StopCalls(stops[..n]);
      var d := HookRun(c, StopCalls(stops[..n]));
      StopFinishesExactly(d, stops[n]);
      StopSequenceKeepsInv(d, stops[n]);
      assert HookRun(c, StopCalls(stops)) == StopSequence(d, stops[n]).0;
      StopNeverTerminates(d, stops[n]);
    }
    StopFinishesExactly(HookRun(c, StopCalls(stops)), last);
  }

  lemma StopNeverTerminates(c: Controller, a: StopAnswers)
    requires c.policy == ReturnTimeout && !c.terminated
    ensures var d := StopSequence(c, a).0; !d.terminated && d.retry == c.retry && d.policy == c.policy
  {
    hide StopLoop;
  }

  /** No stop in any run from any constructor waits longer than its attempts times the cap of its
      delays; 34 seconds with the exit factory. */
  lemma StopWaitsAreBounded(retry: RetryFactory, policy: FailurePolicy, calls: seq<Call>, rounds: nat -> Round)
    requires retry.policy.Valid()
    ensures var c := HookRun(Initial(retry, policy), calls);
      var waited := Sum(Delays(c.retry, rounds, StopLoop(c.retry.maxAttempts, rounds, 0).last + 1));
      && (c.retry == retry ==> waited <= (if retry.maxAttempts == 0 then 1 else retry.maxAttempts) * retry.policy.Cap())
      && (c.retry == EXIT_RETRY ==> waited <= 34000)
  {
    hide HookRun, Sum, Delays, StopLoop, Policy.Cap, Policy.Valid;
    HookRunIsSafe(retry, policy, calls);
    var c := HookRun(Initial(retry, policy), calls);
    var last := StopLoop(c.retry.maxAttempts, rounds, 0).last;
    StopLoopMeaning(c.retry.maxAttempts, rounds, 0);
    DelaysAreCapped(c.retry, rounds, last + 1);
    MulGrows(last + 1, if c.retry.maxAttempts == 0 then 1 else c.retry.maxAttempts, c.retry.policy.Cap());
    if c.retry == EXIT_RETRY {
      assert EXIT_RETRY.policy.Valid();
      WaitsStayInBudget(c.retry, rounds, last + 1);
      ExitBudget(last + 1);
    }
  }

  /** Before a start has succeeded, a stop has one round, and waits one second in it. */
  lemma DefaultStopWaits(rounds: nat -> Round)
    ensures StopLoop(DEFAULT_RETRY.maxAttempts, rounds, 0).last == 0
    ensures Sum(Delays(DEFAULT_RETRY, rounds, 1)) == if Retryable(rounds(0).post) then 1000 else 0
  {
    assert Delays(DEFAULT_RETRY, rounds, 1)[..0] == [];
  }

  /** Nor does it give up early: a stop with the exit factory that uses all five rounds has waited
      at least 12 seconds, and 17 if its last post could be retried too. */
  lemma LongStopWaits(rounds: nat -> Round)
    requires StopLoop(EXIT_RETRY.maxAttempts, rounds, 0).last == 4
    ensures var waited := Sum(Delays(EXIT_RETRY, rounds, 5));
      waited >= 12000 && (Retryable(rounds(4).post) ==> waited >= 17000)
  {
    hide StopLoop, Delay, Policy.Valid;
    assert EXIT_RETRY.policy.Valid() by { ExitPolicyIsValid(); }
    StopLoopMeaning(EXIT_RETRY.maxAttempts, rounds, 0);
    forall i: nat | i < 4
      ensures Retryable(rounds(i).post)
    {
    }
    PowersOfTwo();
    RoundWaits(EXIT_RETRY, rounds, 0);
    RoundWaits(EXIT_RETRY, rounds, 1);
    RoundWaits(EXIT_RETRY, rounds, 2);
    RoundWaits(EXIT_RETRY, rounds, 3);
    RoundWaits(EXIT_RETRY, rounds, 4);
    hide Pow2, Retryable, Sum, Delays;
    SumOfFive(rounds);
  }

  lemma ExitPolicyIsValid()
    ensures EXIT_RETRY.policy.Valid()
  {
  }

  lemma PowersOfTwo()
    ensures Pow2(1) == 2 && Pow2(2) == 4 && Pow2(3) == 8 && Pow2(4) == 16 && Pow2(5) == 32
  {
  }

  lemma SumOfFive(rounds: nat -> Round)
    ensures Sum(Delays(EXIT_RETRY, rounds, 5)) ==
      Delay(EXIT_RETRY, rounds, 0) + Delay(EXIT_RETRY, rounds, 1) + Delay(EXIT_RETRY, rounds, 2)
      + Delay(EXIT_RETRY, rounds, 3) + Delay(EXIT_RETRY, rounds, 4)
  {
    hide Delay;
    SumStep(rounds, 4);
    SumStep(rounds, 3);
    SumStep(rounds, 2);
    SumStep(rounds, 1);
    SumStep(rounds, 0);
  }

  lemma SumStep(rounds: nat -> Round, n: nat)
    ensures Sum(Delays(EXIT_RETRY, rounds, n + 1)) == Sum(Delays(EXIT_RETRY, rounds, n)) + Delay(EXIT_RETRY, rounds, n)
  {
    assert Delays(EXIT_RETRY, rounds, n + 1)[..n] == Delays(EXIT_RETRY, rounds, n);
    hide Delay;
  }

  lemma MulGrows(a: nat, b: nat, c: nat)
    requires a <= b
    ensures a * c <= b * c
  {
  }

  lemma {:induction false} DelaysAreCapped(f: RetryFactory, rounds: nat -> Round, n: nat)
    requires f.policy.Valid()
    ensures Sum(Delays(f, rounds, n)) <= n * f.policy.Cap()
  {
    hide Delay, Policy.Cap, Policy.Valid;
    if n > 0 {
      DelaysAreCapped(f, rounds, n - 1);
      assert Delays(f, rounds, n)[..n - 1] == Delays(f, rounds, n - 1);
      DelayIsCapped(f, rounds, n - 1);
      MulStep(n, f.policy.Cap());
    }
  }

  lemma MulStep(n: nat, c: nat)
    requires n > 0
    ensures n * c == (n - 1) * c + c
  {
  }

  lemma DelayIsCapped(f: RetryFactory, rounds: nat -> Round, i: nat)
    requires f.policy.Valid()
    ensures Delay(f, rounds, i) <= f.policy.Cap()
  {
    DelaysAreMonotone(f.policy, i + 1);
  }

  /** With the default constructor, no stop in any run waits longer than 34 seconds in total. */
  lemma StopWaitsAtMost34Seconds(policy: FailurePolicy, calls: seq<Call>, rounds: nat -> Round)
    ensures var c := HookRun(Initial(DEFAULT_RETRY, policy), calls);
      Sum(Delays(c.retry, rounds, StopLoop(c.retry.maxAttempts, rounds, 0).last + 1)) <= 34000
  {
    assert DEFAULT_RETRY.policy.Valid();
    HookRunIsSafe(DEFAULT_RETRY, policy, calls);
    StopWaitsAreBounded(DEFAULT_RETRY, policy, calls, rounds);
  }

  lemma ExitBudget(n: nat)
    requires n <= 5
    ensures DoublingBudget(1000, 10000, n) <= 34000
  {
    assert Pow2(1) == 2 && Pow2(2) == 4 && Pow2(3) == 8 && Pow2(4) == 16 && Pow2(5) == 32;
    assert DoublingBudget(1000, 10000, 1) == 2000;
    assert DoublingBudget(1000, 10000, 2) == 6000;
    assert DoublingBudget(1000, 10000, 3) == 14000;
    assert DoublingBudget(1000, 10000, 4) == 24000;
    assert DoublingBudget(1000, 10000, 5) == 34000;
  }

  // ---- the window controller ---------------------------------------------------

  /** The thread controller plus the published window handle; 0 is the null handle. */
  datatype Window = Window(base: Controller, hwnd: nat)

  /** `hwnd` is the handle the worker stored in its start context. */
  datatype WindowCall = StartWindow(start: StartAnswers, hwnd: nat) | StopWindow(stop: StopAnswers)

  function WindowStart(w: Window, a: StartAnswers, hwnd: nat): (Window, HResult) {
    var (c, hr) := StartSequence(w.base, a);
    (Window(c, if hr == S_OK then hwnd else w.hwnd), hr)
  }

  function WindowStop(w: Window, a: StopAnswers): (Window, HResult) {
    var c := w.base;
    if c.state == Ready then (w, HResultFromWin32(ERROR_INVALID_OPERATION))
    else if Failed(ValidateThreadAccess(c.data, a.caller)) then (w, ValidateThreadAccess(c.data, a.caller))
    else if w.hwnd == 0 then (w, HResultFromWin32(ERROR_INVALID_OPERATION))
    else
      var (c', hr) := StopSequence(c, a);
      (Window(c', if Failed(hr) then w.hwnd else 0), hr)
  }

  function WindowStep(w: Window, call: WindowCall): Window {
    if w.base.terminated then w
    else match call
      case StartWindow(a, hwnd) => WindowStart(w, a, hwnd).0
      case StopWindow(a) => WindowStop(w, a).0
  }

  function WindowRun(w: Window, calls: seq<WindowCall>): Window {
    if calls == [] then w else WindowStep(WindowRun(w, calls[..|calls| - 1]), calls[|calls| - 1])
  }

  lemma {:induction false} WindowRunIsSafe(calls: seq<WindowCall>)
    ensures var w := WindowRun(Window(Initial(DEFAULT_RETRY, FailFast), 0), calls);
      && Inv(w.base) && KnownRetry(w.base, DEFAULT_RETRY) && w.base.policy == FailFast
      && (w.base.state == Ready <==> w.base.data.None?)
      && (forall i, j :: 0 <= i < j < |w.base.closed| ==> w.base.closed[i] < w.base.closed[j])
  {
    var w0 := Window(Initial(DEFAULT_RETRY, FailFast), 0);
    if calls != [] {
      WindowRunIsSafe(calls[..|calls| - 1]);
      var w, call := WindowRun(w0, calls[..|calls| - 1]), calls[|calls| - 1];
      if !w.base.terminated {
        match call {
          case StartWindow(a, _) => StartSequenceKeepsInv(w.base, a); StepKeepsRetry(w.base, Start(a), DEFAULT_RETRY);
          case StopWindow(a) => StopSequenceKeepsInv(w.base, a); StepKeepsRetry(w.base, Stop(a), DEFAULT_RETRY);
        }
      }
    }
    ClosedHandlesOf(WindowRun(w0, calls).base);
  }

  /** A started controller without a window handle: stop has no target to post to. */
  ghost predicate Stranded(w: Window) {
    w.base.state != Ready && w.hwnd == 0
  }

  /** Once stranded, no sequence of calls changes anything any more. */
  lemma {:induction false} StrandedForever(w: Window, calls: seq<WindowCall>)
    requires Inv(w.base) && Stranded(w)
    ensures WindowRun(w, calls) == w
  {
    if calls != [] {
      StrandedForever(w, calls[..|calls| - 1]);
    }
  }

  /** A start leaves a live but stranded controller exactly when a thread was made and either
      the worker reported S_OK with a null window, or it reported an error, no window handle was
      left over, and the bounded reap did not finish without ending the program. */
  lemma StartStrandsExactly(w: Window, a: StartAnswers, hwnd: nat)
    requires Inv(w.base) && w.base.state == Ready
    ensures var w' := WindowStart(w, a, hwnd).0;
      Stranded(w') && !w'.base.terminated <==>
        && !w.base.terminated && a.create.Created?
        && if a.published == S_OK then hwnd == 0
           else w.hwnd == 0 && if a.wait.Signaled? then a.reap.close.CloseFailed? else w.base.policy != FailFast
  {
    SecondCheckIsNeverTaken(w.base, a.create);
  }

  /** Put together with the handshake, in any interleaving and whatever handle was left over: a
      start that returns S_OK strands the controller exactly when the worker's failing call
      left a last error of zero, and otherwise stores the window that its own worker made. */
  lemma HandshakeStrandsExactly(w: Window, a: StartAnswers, steps: seq<Handshake.Step>, atomicNotify: bool)
    requires Inv(w.base) && w.base.state == Ready && a.create.Created?
    requires var m := Handshake.Run(Handshake.Fresh(Handshake.WindowWorker, atomicNotify), steps);
      m.starter.Returned? && m.starter.hr == a.published == S_OK
    ensures var m := Handshake.Run(Handshake.Fresh(Handshake.WindowWorker, atomicNotify), steps);
      var (w', hr) := WindowStart(w, a, m.starter.hwnd);
      && hr == S_OK && w'.hwnd == m.madeWindow && w'.base.terminated == w.base.terminated
      && (Stranded(w') <==> m.failCode == Some(0))
  {
    Handshake.SuccessMeansOwnWindow(atomicNotify, steps);
    hide Handshake.Run;
    SecondCheckIsNeverTaken(w.base, a.create);
  }

  /** Likewise for the hook controller: with the result of the handshake in any interleaving, a
      start succeeds, and leaves the controller running, exactly when the worker set its hook or
      failed to with a last error of zero. In the latter case there is no hook. */
  lemma HookStartSucceedsExactly(c: Controller, a: StartAnswers, steps: seq<Handshake.Step>, atomicNotify: bool)
    requires Inv(c) && c.state == Ready && a.create.Created?
    requires var m := Handshake.Run(Handshake.Fresh(Handshake.HookWorker, atomicNotify), steps);
      m.starter.Returned? && m.starter.hr == a.published
    ensures var m := Handshake.Run(Handshake.Fresh(Handshake.HookWorker, atomicNotify), steps);
      var (c', hr) := StartSequence(c, a);
      && (hr == S_OK <==> m.failCode.None? || m.failCode == Some(0))
      && (hr == S_OK ==> c'.state == Running && c'.data.Some? && c'.terminated == c.terminated)
  {
    Handshake.StarterReadsSuccessExactly(Handshake.HookWorker, atomicNotify, steps);
    hide Handshake.Run;
    SecondCheckIsNeverTaken(c, a.create);
  }

  /** Under the fail-fast policy a stop strands a healthy controller exactly when
      the worker was seen to exit but closing its handle failed with a last error of zero. */
  lemma StopStrandsExactly(w: Window, a: StopAnswers)
    requires Inv(w.base) && KnownRetry(w.base, DEFAULT_RETRY) && w.base.policy == FailFast
    requires !Stranded(w)
    ensures var w' := WindowStop(w, a).0;
      Stranded(w') && !w'.base.terminated <==>
        && !w.base.terminated && w.base.state != Ready
        && a.caller != w.base.data.value.threadId
        && StopLoop(w.base.retry.maxAttempts, a.rounds, 0).sawExit
        && a.reap.close == CloseFailed(0)
  {
    if w.base.state != Ready {
      StopOutcome(w.base.(state := Stopping), a.rounds, a.reap);
      if a.reap.close.CloseFailed? {
        OnlyZeroSucceeds(a.reap.close.code);
      }
    }
  }

  /** After a stop that reaped the worker, the window handle is cleared exactly when
      the worker's exit status was not a failure. */
  lemma ReapClearsHandleExactly(w: Window, a: StopAnswers)
    requires Inv(w.base) && KnownRetry(w.base, DEFAULT_RETRY) && w.base.state != Ready
    ensures var w' := WindowStop(w, a).0;
      w'.base.state == Ready ==> (w'.hwnd == 0 <==> !Failed(ExitStatus(a.reap.exit)))
  {
    StopFinishesExactly(w.base, a);
  }

  // ---- which window a stop posts to ----------------------------------------------

  /** A run with what the stored handle is worth: `own` is the window that the recorded worker
      published; `stale` says that a handle of an earlier worker is still stored. */
  datatype Traced = Traced(w: Window, own: Option<nat>, stale: bool)

  function TraceStep(t: Traced, call: WindowCall): Traced {
    var w := WindowStep(t.w, call);
    if t.w.base.terminated then t
    else match call
      case StartWindow(a, hwnd) =>
        if w.base.created == t.w.base.created then Traced(w, t.own, t.stale)
        else if a.published == S_OK then Traced(w, Some(hwnd), false)
        else Traced(w, None, t.stale)
      case StopWindow(a) =>
        if t.w.base.state != Ready && w.base.state == Ready then Traced(w, None, Failed(ExitStatus(a.reap.exit)))
        else Traced(w, t.own, t.stale && Failed(WindowStop(t.w, a).1))
  }

  function TraceRun(t: Traced, calls: seq<WindowCall>): Traced {
    if calls == [] then t else TraceStep(TraceRun(t, calls[..|calls| - 1]), calls[|calls| - 1])
  }

  const UNTRACED := Traced(Window(Initial(DEFAULT_RETRY, FailFast), 0), None, false)

  ghost predicate TraceInv(t: Traced) {
    && Inv(t.w.base) && KnownRetry(t.w.base, DEFAULT_RETRY)
    && (t.own.Some? ==> t.w.base.state != Ready && !t.stale && (t.w.hwnd == t.own.value || t.w.hwnd == 0))
    && (t.own.None? ==> (t.w.hwnd != 0 <==> t.stale))
  }

  lemma TraceStepKeepsInv(t: Traced, call: WindowCall)
    requires TraceInv(t)
    ensures TraceInv(TraceStep(t, call))
  {
    hide StopLoop;
    if !t.w.base.terminated {
      match call {
        case StartWindow(a, _) =>
          StartSequenceKeepsInv(t.w.base, a);
          StepKeepsRetry(t.w.base, Start(a), DEFAULT_RETRY);
          SecondCheckIsNeverTaken(t.w.base, a.create);
        case StopWindow(a) =>
          StopSequenceKeepsInv(t.w.base, a);
          StepKeepsRetry(t.w.base, Stop(a), DEFAULT_RETRY);
          if t.w.base.state != Ready {
            StopFinishesExactly(t.w.base, a);
          }
      }
    }
  }

  /** In every run, the window that a stop would post to is the one that the recorded worker
      published, exactly when no handle of an earlier worker is left over. */
  lemma {:induction false} StopPostsToOwnWindowExactly(calls: seq<WindowCall>)
    ensures var t := TraceRun(UNTRACED, calls);
      && TraceInv(t)
      && t.w == WindowRun(UNTRACED.w, calls)
      && (t.w.base.state != Ready && t.w.hwnd != 0 ==> (t.own == Some(t.w.hwnd) <==> !t.stale))
  {
    if calls != [] {
      StopPostsToOwnWindowExactly(calls[..|calls| - 1]);
      TraceStepKeepsInv(TraceRun(UNTRACED, calls[..|calls| - 1]), calls[|calls| - 1]);
    }
  }

  /** A handle is left over by a worker that exits with a failure, and a stop posts to it when the
      next worker fails to start and cannot be reaped. */
  lemma StaleTarget(t: Traced, exit: StopAnswers, start: StartAnswers, hwnd: nat)
    requires TraceInv(t) && !t.w.base.terminated && t.own == Some(t.w.hwnd) && t.w.hwnd != 0
    requires !Unfinished(t.w.base, exit) && Failed(ExitStatus(exit.reap.exit))
    requires start.create.Created? && start.published != S_OK && start.wait.Signaled? && start.reap.close.CloseFailed?
    ensures var u := TraceStep(TraceStep(t, StopWindow(exit)), StartWindow(start, hwnd));
      u.w.base.state == Stopping && !u.w.base.terminated && u.stale && u.own.None? && u.w.hwnd == t.w.hwnd
  {
    hide StopLoop;
    StopFinishesExactly(t.w.base, exit);
    StopOutcome(t.w.base.(state := Stopping), exit.rounds, exit.reap);
    var v := TraceStep(t, StopWindow(exit));
    TraceStepKeepsInv(t, StopWindow(exit));
    SecondCheckIsNeverTaken(v.w.base, start.create);
  }

  // ---- the controller objects ----------------------------------------------------

  class WinEventHookController {
    const base: MessageLoopThreadController

    constructor ()
      ensures fresh(base) && base.Abs() == Initial(DEFAULT_RETRY, FailFast)
    {
      base := new MessageLoopThreadController(FailFast, DEFAULT_RETRY);
    }

    constructor WithRetry(retry: RetryFactory)
      ensures fresh(base) && base.Abs() == Initial(retry, FailFast)
    {
      base := new MessageLoopThreadController(FailFast, retry);
    }

    method Start(a: StartAnswers, nextHandle: nat) returns (hr: HResult)
      requires nextHandle == base.created
      requires Inv(base.Abs())
      modifies base
      ensures (base.Abs(), hr) == StartSequence(old(base.Abs()), a)
    {
      hr := StartAndWait(base, a, nextHandle);
    }

    method Stop(a: StopAnswers) returns (hr: HResult)
      requires Inv(base.Abs())
      modifies base
      ensures (base.Abs(), hr) == StopSequence(old(base.Abs()), a)
    {
      if base.state == Ready {
        return HResultFromWin32(ERROR_INVALID_OPERATION);
      }
      hr := ValidateThreadAccess(base.data, a.caller);
      if Failed(hr) {
        return;
      }
      base.state := Stopping;
      var waits;
      hr, waits := base.StopThread(base.data.value.handle, a.rounds, a.reap);
    }
  }

  /** The part of start that both controllers share. */
  method StartAndWait(base: MessageLoopThreadController, a: StartAnswers, nextHandle: nat) returns (hr: HResult)
    requires nextHandle == base.created
    requires Inv(base.Abs())
    modifies base
    ensures (base.Abs(), hr) == StartSequence(old(base.Abs()), a)
  {
    SecondCheckIsNeverTaken(base.Abs(), a.create);
    var info;
    hr, info := base.Start(true, a.create, nextHandle);
    if Failed(hr) {
      return;
    }
    hr := a.published;
    if hr != S_OK {
      var recover := base.ReapThreadAfterStartFailure(info.value.handle, a.wait, a.reap);
      return;
    }
    base.SetRetryFactory(EXIT_RETRY);
  }

  class WindowController {
    const base: MessageLoopThreadController
    var hwnd: nat

    ghost function Abs(): Window
      reads this, base
    {
      Window(base.Abs(), hwnd)
    }

    constructor ()
      ensures fresh(base) && Abs() == Window(Initial(DEFAULT_RETRY, FailFast), 0)
    {
      base := new MessageLoopThreadController(FailFast, DEFAULT_RETRY);
      hwnd := 0;
    }

    method Start(a: StartAnswers, published: nat, nextHandle: nat) returns (hr: HResult)
      requires nextHandle == base.created
      requires Inv(base.Abs())
      modifies this, base
      ensures (Abs(), hr) == WindowStart(old(Abs()), a, published)
    {
      hr := StartAndWait(base, a, nextHandle);
      if hr == S_OK {
        hwnd := published;
      }
    }

    method Stop(a: StopAnswers) returns (hr: HResult)
      requires Inv(base.Abs())
      modifies this, base
      ensures (Abs(), hr) == WindowStop(old(Abs()), a)
    {
      if base.state == Ready {
        return HResultFromWin32(ERROR_INVALID_OPERATION);
      }
      hr := ValidateThreadAccess(base.data, a.caller);
      if Failed(hr) {
        return;
      }
      if hwnd == 0 {
        return HResultFromWin32(ERROR_INVALID_OPERATION);
      }
      base.state := Stopping;
      var waits;
      hr, waits := base.StopThread(base.data.value.handle, a.rounds, a.reap);
      if Failed(hr) {
        return;
      }
      hwnd := 0;
    }
  }
}
