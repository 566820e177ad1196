/** The life of a worker thread: start, failed start, stop with retries, reap. */
module ThreadController {
  import opened Wrappers
  import opened Win32
  import opened Backoff

  const EINVAL := 22
  const EAGAIN := 11
  const EACCES := 13

  // ---- what the operating system may answer --------------------------------

  datatype CreateAnswer = Created(threadId: Dword) | CreateFailed(doserrno: Dword, errno: nat)
  datatype PostAnswer = Posted | PostFailed(code: Dword)
  datatype WaitAnswer = Signaled | TimedOut | WaitFailed(code: Dword)

  /** Answers of GetExitCodeThread and CloseHandle; a failure carries the last error. */
  datatype ExitAnswer = ExitCode(word: Dword) | ExitQueryFailed(code: Dword)
  datatype CloseAnswer = Closed | CloseFailed(code: Dword)
  datatype ReapAnswer = ReapAnswer(exit: ExitAnswer, close: CloseAnswer)

  /** One pass of the stop loop: a raw random word, the post and the wait. */
  datatype Round = Round(raw: nat, post: PostAnswer, wait: WaitAnswer)

  // ---- controller state -----------------------------------------------------

  datatype State = Ready | Running | Stopping
  datatype FailurePolicy = ReturnTimeout | FailFast
  datatype ThreadInfo = ThreadInfo(handle: nat, threadId: Dword)
  datatype RetryFactory = RetryFactory(maxAttempts: nat, policy: Policy)

  /** The fields of the controller; an absent `data` stands for the invalid handle.
      Handles are numbered in order of creation. `closed` and `seenExited` record which
      handles were closed, and which workers a wait saw exit; `terminated` records a fail-fast. */
  datatype Controller = Controller(
    state: State,
    data: Option<ThreadInfo>,
    retry: RetryFactory,
    policy: FailurePolicy,
    terminated: bool,
    created: nat,
    closed: seq<nat>,
    seenExited: set<nat>)

  ghost predicate Inv(c: Controller) {
    && (c.state == Ready <==> c.data.None?)
    && c.retry.policy.Valid()
    && c.created == |c.closed| + (if c.data.Some? then 1 else 0)
    && (forall i :: 0 <= i < |c.closed| ==> c.closed[i] == i && i in c.seenExited)
    && (c.data.Some? ==> c.data.value.handle == |c.closed|)
  }

  function Initial(retry: RetryFactory, policy: FailurePolicy): Controller {
    Controller(Ready, None, retry, policy, false, 0, [], {})
  }

  // ---- start ----------------------------------------------------------------

  function StartErrorStatus(doserrno: Dword, errno: nat): Dword {
    if doserrno != 0 then doserrno
    else if errno == EINVAL then ERROR_INVALID_PARAMETER
    else if errno == EAGAIN then ERROR_TOO_MANY_THREADS
    else if errno == EACCES then ERROR_ACCESS_DENIED
    else ERROR_FUNCTION_FAILED
  }

  function StartStep(c: Controller, hasProc: bool, a: CreateAnswer): (Controller, HResult) {
    if !hasProc then (c, E_INVALIDARG)
    else if c.state != Ready then (c, HResultFromWin32(ERROR_INVALID_OPERATION))
    else if c.data.Some? then (c, HResultFromWin32(ERROR_INVALID_OPERATION))
    else match a
      case CreateFailed(doserrno, errno) => (c, HResultFromWin32(StartErrorStatus(doserrno, errno)))
      case Created(id) =>
        (c.(data := Some(ThreadInfo(c.created, id)), state := Running, created := c.created + 1), S_OK)
  }

  /** In every reachable state the second check decides nothing, and start succeeds
      exactly when the controller is ready and the system made a thread. */
  lemma SecondCheckIsNeverTaken(c: Controller, a: CreateAnswer)
    requires Inv(c)
    ensures !(c.state == Ready && c.data.Some?)
    ensures var (c', hr) := StartStep(c, true, a);
      && (hr == S_OK <==> c.state == Ready && a.Created?)
      && (hr == S_OK <==> !Failed(hr))
      && (hr != S_OK ==> c' == c)
      && (hr == S_OK ==> c'.state == Running && c'.data == Some(ThreadInfo(c.created, a.threadId)))
  {
    match a
    case CreateFailed(d, e) => OnlyZeroSucceeds(StartErrorStatus(d, e));
    case Created(_) =>
  }

  /** What a failed start reports: a missing procedure, a controller in use, the error that the
      runtime left, or, if it left none, the one that stands for its errno: 22 for invalid
      arguments, 11 for too many threads, 13 for too few resources. */
  lemma StartErrors(c: Controller, hasProc: bool, a: CreateAnswer)
    requires Inv(c)
    ensures var hr := StartStep(c, hasProc, a).1;
      if !hasProc then Bits(hr) == 0x8007_0057
      else if c.state != Ready then Bits(hr) == 0x8007_10DD
      else match a
        case Created(_) => hr == S_OK
        case CreateFailed(doserrno, errno) =>
          if doserrno != 0 then hr == HResultFromWin32(doserrno)
          else Bits(hr) == match errno
            case 22 => 0x8007_0057
            case 11 => 0x8007_0235
            case 13 => 0x8007_0005
            case _ => 0x8007_065B
  {
    KnownWords();
  }

  // ---- reaping --------------------------------------------------------------

  function ExitStatus(e: ExitAnswer): HResult {
    match e
    case ExitCode(w) => Signed(w)
    case ExitQueryFailed(code) => HResultFromWin32(code)
  }

  function ReapStep(c: Controller, handle: nat, a: ReapAnswer): (Controller, HResult) {
    match a.close
    case CloseFailed(code) => (c, HResultFromWin32(code))
    case Closed => (c.(data := None, state := Ready, closed := c.closed + [handle]), ExitStatus(a.exit))
  }

  function WaitError(w: WaitAnswer): HResult
    requires !w.Signaled?
  {
    match w
    case TimedOut => HResultFromWin32(ERROR_TIMEOUT)
    case WaitFailed(code) => HResultFromWin32(code)
  }

  function GiveUp(c: Controller): Controller {
    if c.policy == FailFast then c.(terminated := true) else c
  }

  function ReapAfterStartFailureStep(c: Controller, handle: nat, w: WaitAnswer, a: ReapAnswer): (Controller, HResult) {
    var stopping := c.(state := Stopping);
    if w.Signaled? then
      ReapStep(stopping.(seenExited := c.seenExited + {handle}), handle, a)
    else
      (GiveUp(stopping), WaitError(w))
  }

  // ---- the stop loop --------------------------------------------------------

  predicate Retryable(p: PostAnswer) {
    p.Posted? || p.code == ERROR_NOT_ENOUGH_QUOTA
  }

  function PostError(p: PostAnswer): HResult {
    if p.Posted? then S_OK else HResultFromWin32(p.code)
  }

  /** The post's error wins over the wait's. */
  function RoundError(r: Round): HResult
    requires !r.wait.Signaled?
  {
    if PostError(r.post) != S_OK then PostError(r.post) else WaitError(r.wait)
  }

  /** How the loop left: the index of its last round and whether a wait saw the exit. */
  datatype StopEnd = StopEnd(last: nat, sawExit: bool)

  function StopLoop(max: nat, rounds: nat -> Round, i: nat): (e: StopEnd)
    ensures e.sawExit <==> rounds(e.last).wait.Signaled?
    decreases max - i
  {
    if rounds(i).wait.Signaled? then StopEnd(i, true)
    else if Retryable(rounds(i).post) && i + 1 < max then StopLoop(max, rounds, i + 1)
    else StopEnd(i, false)
  }

  /** The loop ends at the first round that sees the exit, cannot be retried, or is the last
      one allowed; so it posts at most max(1, MaxAttempts) times, and it reports an exit
      exactly when some round before the first unretryable one saw it. */
  lemma {:induction false} StopLoopMeaning(max: nat, rounds: nat -> Round, i: nat)
    ensures var e := StopLoop(max, rounds, i);
      && i <= e.last
      && (e.last < max || e.last == i)
      && (forall j :: i <= j < e.last ==> !rounds(j).wait.Signaled? && Retryable(rounds(j).post))
      && (!e.sawExit ==> !Retryable(rounds(e.last).post) || e.last + 1 >= max)
      && (i < max ==>
        (e.sawExit <==> exists k :: i <= k < max && rounds(k).wait.Signaled?
                                    && forall j :: i <= j < k ==> Retryable(rounds(j).post)))
    decreases max - i
  {
    if !rounds(i).wait.Signaled? && Retryable(rounds(i).post) && i + 1 < max {
      StopLoopMeaning(max, rounds, i + 1);
      var e := StopLoop(max, rounds, i + 1);
      if e.sawExit {
        assert rounds(e.last).wait.Signaled?;
      }
      forall k | i <= k < max && rounds(k).wait.Signaled? && (forall j :: i <= j < k ==> Retryable(rounds(j).post))
        ensures i + 1 <= k && e.sawExit
      {
      }
    }
  }

  /** The delay of a round: the next backoff delay, or none after a hard post failure. */
  function Delay(f: RetryFactory, rounds: nat -> Round, i: nat): nat {
    if Retryable(rounds(i).post) then f.policy.Dithered(Nth(f.policy, i + 1), rounds(i).raw) else 0
  }

  function Delays(f: RetryFactory, rounds: nat -> Round, n: nat): (s: seq<nat>)
    ensures |s| == n
  {
    seq(n, i requires 0 <= i < n => Delay(f, rounds, i))
  }

  function StopThreadStep(c: Controller, handle: nat, rounds: nat -> Round, a: ReapAnswer): (Controller, HResult) {
    var e := StopLoop(c.retry.maxAttempts, rounds, 0);
    var c' := if e.sawExit then c.(seenExited := c.seenExited + {handle}) else c;
    if e.sawExit && 0 < c.retry.maxAttempts then ReapStep(c', handle, a)
    else (GiveUp(c'), if e.sawExit then S_OK else RoundError(rounds(e.last)))
  }

  // ---- how long a stop waits -------------------------------------------------

  function Sum(s: seq<nat>): nat {
    if s == [] then 0 else Sum(s[..|s| - 1]) + s[|s| - 1]
  }

  /** The sum over i = 1..n of min(Min * 2^i, Max). */
  function DoublingBudget(min: nat, max: nat, n: nat): nat {
    if n == 0 then 0 else DoublingBudget(min, max, n - 1) + Min(min * Pow2(n), max)
  }

  /** With doubling, the waits of the first n rounds stay within the budget,
      whatever the random source and the answers are. */
  lemma {:induction false} WaitsStayInBudget(f: RetryFactory, rounds: nat -> Round, n: nat)
    requires f.policy.Valid() && f.policy.Exponential? && f.policy.scale == X2
    ensures Sum(Delays(f, rounds, n)) <= DoublingBudget(f.policy.min, f.policy.max, n)
  {
    if n > 0 {
      WaitsStayInBudget(f, rounds, n - 1);
      assert Delays(f, rounds, n)[..n - 1] == Delays(f, rounds, n - 1);
      DoublingClosedForm(f.policy, n);
      assert Delay(f, rounds, n - 1) <= Nth(f.policy, n);
    }
  }

  /** With doubling and equal jitter a round that can be retried waits between half of
      min(Min * 2^(i + 1), Max) and that; the others do not wait at all. */
  lemma RoundWaits(f: RetryFactory, rounds: nat -> Round, i: nat)
    requires f.policy.Valid() && f.policy.Exponential? && f.policy.scale == X2 && f.policy.jitter == Half
    ensures var d, full := Delay(f, rounds, i), Min(f.policy.min * Pow2(i + 1), f.policy.max);
      if Retryable(rounds(i).post) then full <= 2 * d && d <= full else d == 0
  {
    DoublingClosedForm(f.policy, i + 1);
    DelayRange(f.policy, i + 1, Delay(f, rounds, i));
    hide Nth, Pow2;
    if Retryable(rounds(i).post) {
      assert f.policy.Dithered(Nth(f.policy, i + 1), rounds(i).raw) == Delay(f, rounds, i);
    }
  }

  /** Posts that the stop loop retries: those that succeeded, and those to a full message queue. */
  lemma RetryableExactly(p: PostAnswer)
    ensures Retryable(p) <==> p == Posted || p == PostFailed(1816)
  {
  }

  /** The status of a reaped worker is its exit word, read as a signed number: the upper half of
      the words are failures. A failed query is a failure unless its last error is zero. */
  lemma ExitStatusMeaning(e: ExitAnswer)
    ensures e.ExitCode? ==> Bits(ExitStatus(e)) == e.word && (Failed(ExitStatus(e)) <==> e.word >= 0x8000_0000)
    ensures e.ExitQueryFailed? ==> (Failed(ExitStatus(e)) <==> e.code != 0) && (ExitStatus(e) == S_OK <==> e.code == 0)
  {
    if e.ExitQueryFailed? {
      OnlyZeroSucceeds(e.code);
    }
  }

  // ---- one step of the protocol ----------------------------------------------

  lemma StartKeepsInv(c: Controller, hasProc: bool, a: CreateAnswer)
    requires Inv(c)
    ensures Inv(StartStep(c, hasProc, a).0)
  {
  }

  lemma ReapKeepsInv(c: Controller, a: ReapAnswer)
    requires Inv(c) && c.data.Some? && c.data.value.handle in c.seenExited
    ensures Inv(ReapStep(c, c.data.value.handle, a).0)
  {
  }

  lemma StartFailureKeepsInv(c: Controller, w: WaitAnswer, a: ReapAnswer)
    requires Inv(c) && c.data.Some?
    ensures Inv(ReapAfterStartFailureStep(c, c.data.value.handle, w, a).0)
  {
    var h := c.data.value.handle;
    var stopping := c.(state := Stopping);
    if w.Signaled? {
      ReapKeepsInv(stopping.(seenExited := c.seenExited + {h}), a);
    }
  }

  lemma StopKeepsInv(c: Controller, rounds: nat -> Round, a: ReapAnswer)
    requires Inv(c) && c.data.Some?
    ensures Inv(StopThreadStep(c, c.data.value.handle, rounds, a).0)
  {
    var h := c.data.value.handle;
    var e := StopLoop(c.retry.maxAttempts, rounds, 0);
    if e.sawExit {
      var c' := c.(seenExited := c.seenExited + {h});
      assert Inv(c');
      ReapKeepsInv(c', a);
    }
  }

  /** What one stop sequence does. The worker is reaped exactly when a wait saw it exit and
      its handle could be closed (and an attempt was allowed at all). Otherwise state and handle
      are kept; when no wait saw the exit, the last round's error is returned, and when the
      handle could not be closed, the error of closing it. */
  lemma StopOutcome(c: Controller, rounds: nat -> Round, a: ReapAnswer)
    requires Inv(c) && c.state == Stopping
    ensures var e := StopLoop(c.retry.maxAttempts, rounds, 0);
      var (c', hr) := StopThreadStep(c, c.data.value.handle, rounds, a);
      && (c'.state == Ready <==> e.sawExit && 0 < c.retry.maxAttempts && a.close.Closed?)
      && (c'.state == Ready ==> hr == ExitStatus(a.exit) && c'.closed == c.closed + [c.data.value.handle])
      && (c'.state != Ready ==> c'.state == Stopping && c'.data == c.data && c'.closed == c.closed)
      && (!e.sawExit ==> hr == RoundError(rounds(e.last)))
      && (e.sawExit && 0 < c.retry.maxAttempts && a.close.CloseFailed? ==> hr == HResultFromWin32(a.close.code))
      && (e.sawExit && c.retry.maxAttempts == 0 ==> hr == S_OK)
      && (c'.terminated <==> c.terminated || ((!e.sawExit || c.retry.maxAttempts == 0) && c.policy == FailFast))
      && e.last + 1 <= (if c.retry.maxAttempts == 0 then 1 else c.retry.maxAttempts)
  {
    StopLoopMeaning(c.retry.maxAttempts, rounds, 0);
  }

  lemma RoundErrorMeaning(r: Round)
    requires !r.wait.Signaled?
    ensures RoundError(r) == S_OK <==>
      r.wait == WaitFailed(0) && (r.post.Posted? || r.post == PostFailed(0))
    ensures RoundError(r) == S_OK <==> !Failed(RoundError(r))
    ensures r.post.PostFailed? && r.post.code != 0 ==> RoundError(r) == HResultFromWin32(r.post.code)
    ensures r.post.Posted? || r.post == PostFailed(0) ==>
      RoundError(r) == HResultFromWin32(if r.wait.TimedOut? then ERROR_TIMEOUT else r.wait.code)
  {
    if r.post.PostFailed? {
      OnlyZeroSucceeds(r.post.code);
    }
    if r.wait.WaitFailed? {
      OnlyZeroSucceeds(r.wait.code);
    }
  }

  // ---- the controller object -------------------------------------------------

  class MessageLoopThreadController {
    var state: State
    var data: Option<ThreadInfo>
    var retryFactory: RetryFactory
    var stopFailurePolicy: FailurePolicy
    var terminated: bool
    ghost var created: nat
    ghost var closed: seq<nat>
    ghost var seenExited: set<nat>

    ghost function Abs(): Controller
      reads this
    {
      Controller(state, data, retryFactory, stopFailurePolicy, terminated, created, closed, seenExited)
    }

    constructor (policy: FailurePolicy, retry: RetryFactory)
      ensures Abs() == Initial(retry, policy)
    {
      state, data, retryFactory, stopFailurePolicy, terminated := Ready, None, retry, policy, false;
      created, closed, seenExited := 0, [], {};
    }

    method SetRetryFactory(retry: RetryFactory)
      modifies this
      ensures Abs() == old(Abs()).(retry := retry)
    {
      retryFactory := retry;
    }

    /** `nextHandle` is the handle the system would hand out: they are numbered in order. */
    method Start(hasProc: bool, a: CreateAnswer, nextHandle: nat) returns (hr: HResult, info: Option<ThreadInfo>)
      requires nextHandle == created
      modifies this
      ensures (Abs(), hr) == StartStep(old(Abs()), hasProc, a)
      ensures info == if hr == S_OK then data else None
    {
      info := None;
      if !hasProc {
        return E_INVALIDARG, info;
      }
      if state != Ready {
        return HResultFromWin32(ERROR_INVALID_OPERATION), info;
      }
      if data.Some? {
        return HResultFromWin32(ERROR_INVALID_OPERATION), info;
      }
      match a {
        case CreateFailed(doserrno, errno) =>
          OnlyZeroSucceeds(StartErrorStatus(doserrno, errno));
          hr := HResultFromWin32(StartErrorStatus(doserrno, errno));
        case Created(id) =>
          data := Some(ThreadInfo(nextHandle, id));
          created := created + 1;
          state := Running;
          info := data;
          hr := S_OK;
      }
    }

    method FailFastIfConfigured()
      modifies this`terminated
      ensures Abs() == GiveUp(old(Abs()))
    {
      if stopFailurePolicy == FailFast {
        terminated := true;
      }
    }

    method ReapThread(handle: nat, a: ReapAnswer) returns (hr: HResult)
      modifies this
      ensures (Abs(), hr) == ReapStep(old(Abs()), handle, a)
    {
      hr := ExitStatus(a.exit);
      if a.close.CloseFailed? {
        return HResultFromWin32(a.close.code);
      }
      closed := closed + [handle];
      data := None;
      state := Ready;
    }

    method ReapThreadAfterStartFailure(handle: nat, w: WaitAnswer, a: ReapAnswer) returns (hr: HResult)
      modifies this
      ensures (Abs(), hr) == ReapAfterStartFailureStep(old(Abs()), handle, w, a)
    {
      state := Stopping;
      if !w.Signaled? {
        hr := WaitError(w);
        FailFastIfConfigured();
        return;
      }
      seenExited := seenExited + {handle};
      hr := ReapThread(handle, a);
    }

    /** The do-while loop alone; `hr` and `sawExit` describe its last round. */
    method RetryUntilExit(retry: RetryState, rounds: nat -> Round)
      returns (hr: HResult, sawExit: bool, waits: seq<nat>)
      requires retry.Valid() && retry.attempts == 0 && retry.backoff.advances == 0
      modifies retry, retry.backoff
      ensures var e := StopLoop(retry.maxAttempts, rounds, 0);
        && sawExit == e.sawExit
        && hr == (if e.sawExit then S_OK else RoundError(rounds(e.last)))
        && waits == Delays(RetryFactory(retry.maxAttempts, retry.backoff.policy), rounds, e.last + 1)
        && (retry.Expired() <==> !e.sawExit || retry.maxAttempts == 0)
    {
      ghost var f := RetryFactory(retry.maxAttempts, retry.backoff.policy);
      waits := [];
      while true
        invariant retry.Valid() && retry.attempts == retry.backoff.advances
        invariant retry.attempts == 0 || retry.Available()
        invariant StopLoop(retry.maxAttempts, rounds, 0) == StopLoop(retry.maxAttempts, rounds, retry.attempts)
        invariant waits == Delays(f, rounds, retry.attempts)
        decreases retry.maxAttempts - retry.attempts
      {
        var round := rounds(retry.attempts);
        ghost var i := retry.attempts;
        hr := PostError(round.post);
        var retryable := Retryable(round.post);
        var delay := 0;
        if retryable {
          delay := retry.backoff.Next(round.raw);
        }
        assert Delays(f, rounds, i + 1) == Delays(f, rounds, i) + [Delay(f, rounds, i)];
        waits := waits + [delay];
        if round.wait.Signaled? {
          return S_OK, true, waits;
        }
        if hr == S_OK {
          hr := WaitError(round.wait);
        }
        if !retryable {
          retry.ForceExpire();
          return hr, false, waits;
        }
        retry.AdvanceAttempt();
        if !retry.Available() {
          return hr, false, waits;
        }
      }
    }

    /** Posts the stop message, waits, and retries with backoff; `waits` lists the timeouts used. */
    method StopThread(handle: nat, rounds: nat -> Round, a: ReapAnswer) returns (hr: HResult, waits: seq<nat>)
      requires retryFactory.policy.Valid()
      modifies this
      ensures (Abs(), hr) == StopThreadStep(old(Abs()), handle, rounds, a)
      ensures var last := StopLoop(retryFactory.maxAttempts, rounds, 0).last;
        waits == Delays(retryFactory, rounds, last + 1)
    {
      var retry := new RetryState(retryFactory.maxAttempts, retryFactory.policy);
      var sawExit: bool;
      hr, sawExit, waits := RetryUntilExit(retry, rounds);
      if sawExit {
        seenExited := seenExited + {handle};
      }
      if retry.Expired() {
        FailFastIfConfigured();
        return;
      }
      hr := ReapThread(handle, a);
    }
  }
}
