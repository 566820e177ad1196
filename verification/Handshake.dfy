/** The start handshake between a starter and its worker through the starter's stack context,
    under every interleaving of their steps. */
module Handshake {
  import opened Wrappers
  import opened Win32

  datatype WorkerKind = WindowWorker | HookWorker

  /** The stack context: the published result, the window handle, and whether it still exists. */
  datatype Context = Context(hr: HResult, hwnd: nat, live: bool)

  datatype WorkerPc =
    | AtRegister
    | AtCreate
    | AtHook
    | AtUnregister(hr: HResult)
    | AtStoreHwnd(hwnd: nat)
    | AtStore(hr: HResult, proceed: bool)
    | AtWake(proceed: bool)
    | InLoop
    | AtCleanup
    | Ended

  datatype StarterPc =
    | Waiting
    | Loading
    | LoadingHwnd
    | Reaping(hr: HResult)
    | Returned(hr: HResult, hwnd: nat)

  /** The two threads and their context. The last fields record what happened:
      the published results, the window made, the last error of a failed call, and
      whether the worker used a context field, or only woke its address, after the starter left. */
  datatype Machine = Machine(
    kind: WorkerKind,
    atomicNotify: bool,
    ctx: Context,
    worker: WorkerPc,
    starter: StarterPc,
    published: seq<HResult>,
    madeWindow: nat,
    failCode: Option<Dword>,
    lateTouch: bool,
    lateWake: bool)

  function Fresh(kind: WorkerKind, atomicNotify: bool): Machine {
    Machine(kind, atomicNotify, Context(E_PENDING, 0, true),
            if kind == WindowWorker then AtRegister else AtHook,
            Waiting, [], 0, None, false, false)
  }

  /** What the system answers to the worker's current call. */
  datatype Answer = Answer(ok: bool, hwnd: nat, code: Dword)

  datatype Step = WorkerStep(answer: Answer) | StarterStep

  function Touch(m: Machine): Machine {
    m.(lateTouch := m.lateTouch || !m.ctx.live)
  }

  function FailWith(m: Machine, code: Dword, pc: WorkerPc): Machine {
    m.(worker := pc, failCode := Some(code))
  }

  function AfterWake(proceed: bool): WorkerPc {
    if proceed then InLoop else Ended
  }

  function WorkerNext(m: Machine, a: Answer): Machine {
    match m.worker
    case AtRegister =>
      if a.ok then Touch(m).(worker := AtCreate)
      else FailWith(Touch(m), a.code, AtStore(HResultFromWin32(a.code), false))
    case AtCreate =>
      if a.hwnd != 0 then Touch(m).(worker := AtStoreHwnd(a.hwnd), madeWindow := a.hwnd)
      else FailWith(Touch(m), a.code, AtUnregister(HResultFromWin32(a.code)))
    case AtUnregister(hr) => Touch(m).(worker := AtStore(hr, false))
    case AtStoreHwnd(h) => Touch(m).(ctx := m.ctx.(hwnd := h), worker := AtStore(S_OK, true))
    case AtHook =>
      if a.ok then Touch(m).(worker := AtStore(S_OK, true))
      else FailWith(Touch(m), a.code, AtStore(HResultFromWin32(a.code), false))
    case AtStore(hr, proceed) =>
      Touch(m).(ctx := m.ctx.(hr := hr), published := m.published + [hr],
                worker := if m.atomicNotify then AfterWake(proceed) else AtWake(proceed))
    case AtWake(proceed) => m.(worker := AfterWake(proceed), lateWake := m.lateWake || !m.ctx.live)
    case InLoop => m.(worker := AtCleanup)
    case AtCleanup => m.(worker := Ended)
    case Ended => m
  }

  /** Waiting stutters while the result is pending. After a failure the starter first waits for
      its worker to exit; if that wait ends otherwise, the fail-fast policy ends the program.
      Returning ends the context's life. */
  function StarterNext(m: Machine): Machine {
    match m.starter
    case Waiting => if m.ctx.hr != E_PENDING then m.(starter := Loading) else m
    case Loading =>
      if m.ctx.hr != S_OK then m.(starter := Reaping(m.ctx.hr))
      else if m.kind == WindowWorker then m.(starter := LoadingHwnd)
      else Return(m, S_OK, 0)
    case LoadingHwnd => Return(m, S_OK, m.ctx.hwnd)
    case Reaping(hr) => if m.worker.Ended? then Return(m, hr, 0) else m
    case Returned(_, _) => m
  }

  function Return(m: Machine, hr: HResult, hwnd: nat): Machine {
    m.(starter := Returned(hr, hwnd), ctx := m.ctx.(live := false))
  }

  function Next(m: Machine, s: Step): Machine {
    match s
    case WorkerStep(a) => WorkerNext(m, a)
    case StarterStep => StarterNext(m)
  }

  function Run(m: Machine, steps: seq<Step>): Machine {
    if steps == [] then m else Next(Run(m, steps[..|steps| - 1]), steps[|steps| - 1])
  }

  // ---- invariant ------------------------------------------------------------

  predicate BeforePublishing(pc: WorkerPc) {
    pc.AtRegister? || pc.AtCreate? || pc.AtHook? || pc.AtUnregister? || pc.AtStoreHwnd? || pc.AtStore?
  }

  /** The result that the worker has settled on, if any. */
  ghost predicate Settled(m: Machine, hr: HResult) {
    || m.worker == AtUnregister(hr)
    || (m.worker.AtStore? && m.worker.hr == hr)
    || (m.published == [hr])
  }

  ghost predicate Inv(m: Machine) {
    // publication happens once, and the context shows it
    && (BeforePublishing(m.worker) <==> m.published == [])
    && |m.published| <= 1
    && m.ctx.hr == (if m.published == [] then E_PENDING else m.published[0])
    // the starter leaves only after it saw a result
    && (m.ctx.live <==> !m.starter.Returned?)
    && (!m.starter.Waiting? ==> m.ctx.hr != E_PENDING)
    && (m.starter.LoadingHwnd? ==> m.ctx.hr == S_OK && m.kind == WindowWorker)
    && (m.starter.Reaping? ==> m.starter.hr == m.ctx.hr != S_OK)
    && (m.starter.Returned? ==> m.starter.hr == m.ctx.hr)
    && (m.starter.Returned? && m.ctx.hr == S_OK && m.kind == WindowWorker ==> m.starter.hwnd == m.ctx.hwnd)
    && !m.lateTouch
    && (m.atomicNotify ==> !m.worker.AtWake? && !m.lateWake)
    // after a failure it leaves only after its worker did
    && (m.starter.Returned? && m.starter.hr != S_OK ==> m.worker.Ended?)
    && (m.lateWake ==> m.ctx.hr == S_OK && m.starter.Returned? && !m.worker.AtWake?)
    && (m.starter.Returned? && (m.starter.hr != S_OK || m.kind == HookWorker) ==> m.starter.hwnd == 0)
    // only a worker that did not fail goes on
    && (m.worker.AtUnregister? ==> m.failCode.Some?)
    && (m.worker.AtStore? ==> (m.worker.proceed <==> m.failCode.None?))
    && (m.worker.AtWake? ==> (m.worker.proceed <==> m.failCode.None?))
    && (m.worker.InLoop? || m.worker.AtCleanup? ==> m.failCode.None?)
    // results agree with what happened
    && (m.worker.AtHook? ==> m.kind == HookWorker)
    && (m.kind == HookWorker ==> !m.worker.AtRegister? && !m.worker.AtCreate? && !m.worker.AtUnregister? && !m.worker.AtStoreHwnd?)
    && (m.worker.AtRegister? || m.worker.AtCreate? || m.worker.AtHook? ==>
      m.failCode.None? && m.madeWindow == 0 && m.ctx.hwnd == 0)
    && (m.failCode.Some? ==>
      m.madeWindow == 0 && m.ctx.hwnd == 0 && Settled(m, HResultFromWin32(m.failCode.value)))
    && (m.failCode.None? ==>
      || m.worker.AtRegister? || m.worker.AtCreate? || m.worker.AtHook?
      || m.worker == AtStoreHwnd(m.madeWindow)
      || (Settled(m, S_OK) && m.ctx.hwnd == m.madeWindow))
    && (m.worker.AtStoreHwnd? ==> m.failCode.None?)
    && (m.failCode.None? && m.kind == WindowWorker && !m.worker.AtRegister? && !m.worker.AtCreate? ==> m.madeWindow != 0)
  }

  lemma FreshInv(kind: WorkerKind, atomicNotify: bool)
    ensures Inv(Fresh(kind, atomicNotify))
  {
  }

  lemma WorkerKeepsInv(m: Machine, a: Answer)
    requires Inv(m)
    ensures Inv(WorkerNext(m, a))
    ensures WorkerNext(m, a).kind == m.kind && WorkerNext(m, a).atomicNotify == m.atomicNotify
  {
    hide HResultFromWin32;
  }

  lemma StarterKeepsInv(m: Machine)
    requires Inv(m)
    ensures Inv(StarterNext(m))
    ensures StarterNext(m).kind == m.kind && StarterNext(m).atomicNotify == m.atomicNotify
  {
    hide HResultFromWin32;
  }

  lemma {:induction false} RunKeepsInv(kind: WorkerKind, atomicNotify: bool, steps: seq<Step>)
    ensures Inv(Run(Fresh(kind, atomicNotify), steps))
    ensures Run(Fresh(kind, atomicNotify), steps).kind == kind
    ensures Run(Fresh(kind, atomicNotify), steps).atomicNotify == atomicNotify
  {
    hide Inv, WorkerNext, StarterNext;
    FreshInv(kind, atomicNotify);
    if steps != [] {
      RunKeepsInv(kind, atomicNotify, steps[..|steps| - 1]);
      var m := Run(Fresh(kind, atomicNotify), steps[..|steps| - 1]);
      match steps[|steps| - 1] {
        case WorkerStep(a) => WorkerKeepsInv(m, a);
        case StarterStep => StarterKeepsInv(m);
      }
    }
  }

  // ---- main results ------------------------------------------------------------

  /** In every interleaving the worker publishes at most one result, never uses a field of
      the context after the starter left, and the starter returns exactly that result. */
  lemma WorkerRespectsContext(kind: WorkerKind, atomicNotify: bool, steps: seq<Step>)
    ensures var m := Run(Fresh(kind, atomicNotify), steps);
      && |m.published| <= 1
      && !m.lateTouch
      && (atomicNotify ==> !m.lateWake)
      && (m.worker.Ended? ==> |m.published| == 1)
      && (m.starter.Returned? ==> m.published == [m.starter.hr])
      && (BeforePublishing(m.worker) ==> m.ctx.live)
      && (m.starter.Returned? && (m.starter.hr != S_OK || kind == HookWorker) ==> m.starter.hwnd == 0)
  {
    RunKeepsInv(kind, atomicNotify, steps);
  }

  /** Once the starter can be woken, a worker that failed ends at once, and one that did not fail
      runs its loop, cleans up and ends; nothing else enters the loop, cleans up or ends. */
  lemma WorkerEndsExactly(kind: WorkerKind, atomicNotify: bool, steps: seq<Step>, a: Answer)
    ensures var m := Run(Fresh(kind, atomicNotify), steps);
      var n, wakes := WorkerNext(m, a), m.worker.AtWake? || (atomicNotify && m.worker.AtStore?);
      && (n.worker.InLoop? <==> wakes && m.failCode.None?)
      && (n.worker.AtCleanup? <==> m.worker.InLoop?)
      && (n.worker.Ended? <==> m.worker.Ended? || m.worker.AtCleanup? || (wakes && m.failCode.Some?))
  {
    RunKeepsInv(kind, atomicNotify, steps);
  }

  /** A starter that reads S_OK gets the window its own worker made. That handle is null
      exactly when the worker had failed and the failing call left a last error of zero. */
  lemma SuccessMeansOwnWindow(atomicNotify: bool, steps: seq<Step>)
    ensures var m := Run(Fresh(WindowWorker, atomicNotify), steps);
      m.starter.Returned? && m.starter.hr == S_OK ==>
        && m.starter.hwnd == m.madeWindow
        && (m.starter.hwnd == 0 <==> m.failCode == Some(0))
        && (m.starter.hwnd != 0 <==> m.failCode.None?)
  {
    RunKeepsInv(WindowWorker, atomicNotify, steps);
    var m := Run(Fresh(WindowWorker, atomicNotify), steps);
    if m.failCode.Some? {
      OnlyZeroSucceeds(m.failCode.value);
    }
  }

  /** The starter of either worker reads S_OK exactly when the worker did not fail, or failed in a
      call that left a last error of zero. */
  lemma StarterReadsSuccessExactly(kind: WorkerKind, atomicNotify: bool, steps: seq<Step>)
    ensures var m := Run(Fresh(kind, atomicNotify), steps);
      m.starter.Returned? ==> (m.starter.hr == S_OK <==> m.failCode.None? || m.failCode == Some(0))
  {
    RunKeepsInv(kind, atomicNotify, steps);
    var m := Run(Fresh(kind, atomicNotify), steps);
    if m.failCode.Some? {
      OnlyZeroSucceeds(m.failCode.value);
    }
  }

  /** The null case happens: registration fails without setting the last error. */
  lemma NullWindowWitness()
    ensures exists steps: seq<Step> ::
      var m := Run(Fresh(WindowWorker, true), steps);
      m.starter == Returned(S_OK, 0)
  {
    var m0 := Fresh(WindowWorker, true);
    var w := WorkerStep(Answer(false, 0, 0));
    var steps := [] + [w] + [w] + [StarterStep] + [StarterStep] + [StarterStep];
    RunPrefix(m0, [], w);
    RunPrefix(m0, [] + [w], w);
    RunPrefix(m0, [] + [w] + [w], StarterStep);
    RunPrefix(m0, [] + [w] + [w] + [StarterStep], StarterStep);
    RunPrefix(m0, [] + [w] + [w] + [StarterStep] + [StarterStep], StarterStep);
    NullWindowMachine();
    hide Next;
    assert Run(m0, steps).starter == Returned(S_OK, 0);
  }

  lemma NullWindowMachine()
    ensures var w := WorkerStep(Answer(false, 0, 0));
      Next(Next(Next(Next(Next(Fresh(WindowWorker, true), w), w), StarterStep), StarterStep), StarterStep).starter
        == Returned(S_OK, 0)
  {
    var w := WorkerStep(Answer(false, 0, 0));
    var m0 := Fresh(WindowWorker, true);
    var m1 := Next(m0, w);
    assert m1 == m0.(worker := AtStore(S_OK, false), failCode := Some(0));
    var m2 := Next(m1, w);
    assert m2 == m1.(ctx := Context(S_OK, 0, true), published := [S_OK], worker := Ended);
    var m3 := Next(m2, StarterStep);
    assert m3 == m2.(starter := Loading);
    var m4 := Next(m3, StarterStep);
    assert m4 == m3.(starter := LoadingHwnd);
  }

  lemma RunPrefix(m: Machine, steps: seq<Step>, s: Step)
    ensures Run(m, steps + [s]) == Next(Run(m, steps), s)
  {
    assert (steps + [s])[..|steps|] == steps;
  }

  /** Once published, the starter is released exactly when the result is not the pending
      marker itself, which only the error word 0x8000000A turns into. */
  lemma StarterIsReleasedExactly(kind: WorkerKind, atomicNotify: bool, steps: seq<Step>)
    ensures var m := Run(Fresh(kind, atomicNotify), steps);
      m.published != [] && m.starter.Waiting? ==>
        (StarterNext(m).starter.Loading? <==> m.failCode != Some(0x8000_000A))
  {
    RunKeepsInv(kind, atomicNotify, steps);
  }

  // ---- the wake is a step of its own -----------------------------------------------

  /** The starter alone takes `n` steps. */
  function Starters(m: Machine, n: nat): Machine {
    if n == 0 then m else StarterNext(Starters(m, n - 1))
  }

  /** As long as a worker that failed has not woken its starter, the starter cannot return. */
  lemma {:induction false} FailedStarterStays(m: Machine, n: nat)
    requires Inv(m) && m.worker.AtWake? && m.ctx.hr != S_OK
    ensures var s := Starters(m, n);
      Inv(s) && s.worker == m.worker && s.ctx.hr == m.ctx.hr && !s.starter.Returned? && s.lateWake == m.lateWake
  {
    if n > 0 {
      FailedStarterStays(m, n - 1);
      StarterKeepsInv(Starters(m, n - 1));
    }
  }

  /** How many steps a starter that reads S_OK still needs at most. */
  function StepsLeft(s: StarterPc): nat {
    match s case Waiting => 3 case Loading => 2 case LoadingHwnd => 1 case _ => 0
  }

  ghost predicate Succeeding(m: Machine, n: nat) {
    m.ctx.hr == S_OK && !m.starter.Reaping? && (m.starter.Returned? <==> !m.ctx.live) && StepsLeft(m.starter) <= n
  }

  lemma SuccessGoesOn(m: Machine, n: nat)
    requires Succeeding(m, n)
    ensures Succeeding(StarterNext(m), if n == 0 then 0 else n - 1) && StarterNext(m).worker == m.worker
  {
  }

  lemma {:induction false} SuccessGoesOnFor(m: Machine, n: nat)
    requires n <= 3 && Succeeding(m, 3)
    ensures Succeeding(Starters(m, n), 3 - n) && Starters(m, n).worker == m.worker
  {
    hide StarterNext, Succeeding;
    if n > 0 {
      SuccessGoesOnFor(m, n - 1);
      SuccessGoesOn(Starters(m, n - 1), 4 - n);
    }
  }

  /** A starter that reads S_OK returns within three steps, even if its worker takes none. */
  lemma SuccessfulStarterReturns(m: Machine)
    requires Inv(m) && m.ctx.hr == S_OK
    ensures var s := Starters(m, 3); s.starter.Returned? && s.worker == m.worker && !s.ctx.live
  {
    assert Succeeding(m, 3);
    hide Inv, StarterNext, Succeeding;
    SuccessGoesOnFor(m, 3);
    DoneMeansReturned(Starters(m, 3));
  }

  lemma DoneMeansReturned(m: Machine)
    requires Succeeding(m, 0)
    ensures m.starter.Returned? && !m.ctx.live
  {
  }

  /** Storing and waking are separate steps in the program. In every schedule, a worker that has
      stored its result and not yet woken its starter may wake the address of a context that is
      gone exactly when that result is S_OK; only then has any wake been late. */
  lemma LateWakeExactly(kind: WorkerKind, steps: seq<Step>, a: Answer)
    ensures var m := Run(Fresh(kind, false), steps);
      && (m.lateWake ==> m.published == [S_OK])
      && (m.worker.AtWake? ==> ((exists n: nat :: WorkerNext(Starters(m, n), a).lateWake) <==> m.ctx.hr == S_OK))
  {
    RunKeepsInv(kind, false, steps);
    var m := Run(Fresh(kind, false), steps);
    if m.worker.AtWake? {
      if m.ctx.hr == S_OK {
        SuccessfulStarterReturns(m);
        assert WorkerNext(Starters(m, 3), a).lateWake;
      } else {
        forall n: nat
          ensures !WorkerNext(Starters(m, n), a).lateWake
        {
          FailedStarterStays(m, n);
        }
      }
    }
  }

  function StarterSteps(n: nat): (s: seq<Step>) {
    seq(n, _ => StarterStep)
  }

  lemma {:induction false} StartersAreSteps(m: Machine, steps: seq<Step>, n: nat)
    ensures Run(m, steps + StarterSteps(n)) == Starters(Run(m, steps), n)
  {
    if n == 0 {
      assert steps + StarterSteps(0) == steps;
    } else {
      StartersAreSteps(m, steps, n - 1);
      assert steps + StarterSteps(n) == (steps + StarterSteps(n - 1)) + [StarterStep];
      RunPrefix(m, steps + StarterSteps(n - 1), StarterStep);
      hide StarterNext;
    }
  }

  /** Either worker has such a schedule: it succeeds, the starter returns, the worker wakes. */
  lemma SplitNotifyMayWakeLate(kind: WorkerKind)
    ensures exists steps: seq<Step> :: Run(Fresh(kind, false), steps).lateWake
  {
    var w := WorkerStep(Answer(true, 1, 0));
    var m0 := Fresh(kind, false);
    var steps := SuccessfulSteps(kind, w.answer);
    LateWakeExactly(kind, steps, w.answer);
    var m := Run(m0, steps);
    var n: nat :| WorkerNext(Starters(m, n), w.answer).lateWake;
    StartersAreSteps(m0, steps, n);
    RunPrefix(m0, steps + StarterSteps(n), w);
    assert Run(m0, steps + StarterSteps(n) + [w]).lateWake;
  }

  lemma SuccessfulSteps(kind: WorkerKind, a: Answer) returns (steps: seq<Step>)
    requires a.ok && a.hwnd != 0
    ensures var m := Run(Fresh(kind, false), steps); m.worker.AtWake? && m.ctx.hr == S_OK
  {
    var w, m0 := WorkerStep(a), Fresh(kind, false);
    RunPrefix(m0, [], w);
    RunPrefix(m0, [] + [w], w);
    steps := [] + [w] + [w];
    if kind == WindowWorker {
      RunPrefix(m0, steps, w);
      RunPrefix(m0, steps + [w], w);
      steps := steps + [w] + [w];
    }
    SuccessfulMachine(kind, a);
    hide WorkerNext;
  }

  lemma SuccessfulMachine(kind: WorkerKind, a: Answer)
    requires a.ok && a.hwnd != 0
    ensures var m := WorkerNext(WorkerNext(Fresh(kind, false), a), a);
      if kind == HookWorker then m.worker.AtWake? && m.ctx.hr == S_OK
      else WorkerNext(WorkerNext(m, a), a).worker.AtWake? && WorkerNext(WorkerNext(m, a), a).ctx.hr == S_OK
  {
    var m := WorkerNext(WorkerNext(Fresh(kind, false), a), a);
    if kind == WindowWorker {
      assert m.worker == AtStoreHwnd(a.hwnd);
      assert WorkerNext(m, a).worker == AtStore(S_OK, true);
    }
  }
}
