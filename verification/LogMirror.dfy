/** The log ring buffer and the view that mirrors it through a delayed queue of slots. */
module LogMirror {
  import opened Wrappers

  /** The storage of a ring, 64 cells in a release build and 256 in a debug build; unwritten
      cells are None. `first` is the newest log. */
  datatype Ring<L> = Ring(slots: seq<Option<L>>, first: nat, size: nat)

  /** What a listener is told: an insertion at index 0, maybe with a removal at the end, and
      the cell in which the new log was stored. The log itself is not copied. */
  datatype Change = Change(removesLast: bool, slot: nat)

  predicate WellFormed<L>(r: Ring<L>) {
    0 < |r.slots| && r.first < |r.slots| && r.size <= |r.slots|
  }

  /** The cell before another, going round. */
  function Before(slot: nat, n: nat): (r: nat)
    requires slot < n
  {
    if slot == 0 then n - 1 else slot - 1
  }

  function Push<L>(r: Ring<L>, log: L): (p: Ring<L>)
    requires WellFormed(r)
  {
    var f := Before(r.first, |r.slots|);
    Ring(r.slots[f := Some(log)], f, Min(r.size + 1, |r.slots|))
  }

  function ChangeOf<L>(r: Ring<L>): Change
    requires WellFormed(r)
  {
    Change(r.size == |r.slots|, Before(r.first, |r.slots|))
  }

  /** The first `k` logs of a ring, newest first; None for an unwritten cell. */
  function Items<L>(r: Ring<L>, k: nat): (s: seq<Option<L>>)
    requires WellFormed(r) && k <= |r.slots|
    ensures |s| == k
  {
    seq(k, i requires 0 <= i < k =>
      r.slots[if r.first + i < |r.slots| then r.first + i else r.first + i - |r.slots|])
  }

  datatype World<L> = World(ring: Ring<L>, queue: seq<Change>, view: seq<Option<L>>)

  /** The interface thread runs the oldest queued callback. */
  function Deliver<L>(w: World<L>): World<L>
    requires WellFormed(w.ring)
  {
    if w.queue == [] || w.queue[0].slot >= |w.ring.slots| then w
    else
      var inserted := [w.ring.slots[w.queue[0].slot]] + w.view;
      w.(queue := w.queue[1..], view := if w.queue[0].removesLast then inserted[..|inserted| - 1] else inserted)
  }

  datatype Event<L> = Log(log: L) | Update

  function Step<L>(w: World<L>, e: Event<L>): (r: World<L>)
    requires WellFormed(w.ring)
    ensures WellFormed(r.ring)
  {
    match e
    case Log(log) => w.(ring := Push(w.ring, log), queue := w.queue + [ChangeOf(w.ring)])
    case Update => Deliver(w)
  }

  function Run<L>(w: World<L>, events: seq<Event<L>>): (r: World<L>)
    requires WellFormed(w.ring)
    ensures WellFormed(r.ring)
  {
    if events == [] then w else Step(Run(w, events[..|events| - 1]), events[|events| - 1])
  }

  /** A ring of `n` cells after a history of logs, oldest first. */
  function Filled<L>(n: nat, history: seq<L>): (r: Ring<L>)
    requires 0 < n
    ensures WellFormed(r) && |r.slots| == n
  {
    if history == [] then Ring(seq(n, _ => None), 0, 0)
    else Push(Filled(n, history[..|history| - 1]), history[|history| - 1])
  }

  /** A view that is opened after a history copies the ring. */
  function Opened<L>(n: nat, history: seq<L>): (w: World<L>)
    requires 0 < n
    ensures WellFormed(w.ring)
  {
    var r := Filled(n, history);
    World(r, [], Items(r, r.size))
  }

  function Logged<L>(events: seq<Event<L>>): seq<L> {
    if events == [] then []
    else
      var e := events[|events| - 1];
      Logged(events[..|events| - 1]) + (if e.Log? then [e.log] else [])
  }

  // ---- the reference: the newest logs of a history ---------------------------------------------

  function Newest<L>(history: seq<L>, k: nat): (s: seq<Option<L>>)
    requires k <= |history|
    ensures |s| == k
  {
    seq(k, i requires 0 <= i < k => Some(history[|history| - 1 - i]))
  }

  function Window<L>(history: seq<L>, n: nat): seq<Option<L>> {
    Newest(history, Min(|history|, n))
  }

  // ---- cells ----------------------------------------------------------------------------------------

  /** The cell that holds log number `q`. */
  function SlotOf(q: nat, n: nat): (r: nat)
    requires 0 < n
    ensures r < n
  {
    if q == 0 then n - 1 else Before(SlotOf(q - 1, n), n)
  }

  lemma {:induction false} SlotAfter(q: nat, d: nat, n: nat)
    requires 0 < n && d <= n
    ensures SlotOf(q + d, n) == if d <= SlotOf(q, n) then SlotOf(q, n) - d else SlotOf(q, n) + n - d
  {
    if d > 0 {
      SlotAfter(q, d - 1, n);
    }
  }

  /** The newest log of the first `p` that shares its cell with log `d`. */
  function Latest(d: nat, p: nat, n: nat): (q: nat)
    requires d < p && 0 < n
    ensures d <= q < p <= q + n
    ensures q == d <==> p <= d + n
    decreases p - d
  {
    if d + n < p then Latest(d + n, p, n) else d
  }

  ghost predicate Holds<L>(r: Ring<L>, history: seq<L>) {
    var n := |r.slots|;
    && WellFormed(r)
    && r.size == Min(|history|, n)
    && r.first == (if history == [] then 0 else SlotOf(|history| - 1, n))
    && forall q :: 0 <= q < |history| && |history| - n <= q ==> r.slots[SlotOf(q, n)] == Some(history[q])
  }

  lemma PushHolds<L>(r: Ring<L>, history: seq<L>, log: L)
    requires Holds(r, history)
    ensures Holds(Push(r, log), history + [log])
  {
    var n, h := |r.slots|, history + [log];
    assert Before(r.first, n) == SlotOf(|history|, n);
    forall q | 0 <= q < |h| && |h| - n <= q
      ensures Push(r, log).slots[SlotOf(q, n)] == Some(h[q])
    {
      SlotAfter(q, |history| - q, n);
    }
  }

  lemma {:induction false} FilledHolds<L>(n: nat, history: seq<L>)
    requires 0 < n
    ensures Holds(Filled(n, history), history)
  {
    if history != [] {
      FilledHolds(n, history[..|history| - 1]);
      PushHolds(Filled(n, history[..|history| - 1]), history[..|history| - 1], history[|history| - 1]);
      assert history == history[..|history| - 1] + [history[|history| - 1]];
    }
  }

  /** The cell of log `d` now holds the newest log that was stored there. */
  lemma {:induction false} SlotHoldsLatest<L>(r: Ring<L>, history: seq<L>, d: nat)
    requires Holds(r, history) && d < |history|
    ensures r.slots[SlotOf(d, |r.slots|)] == Some(history[Latest(d, |history|, |r.slots|)])
    decreases |history| - d
  {
    var n := |r.slots|;
    if d + n < |history| {
      SlotAfter(d, n, n);
      SlotHoldsLatest(r, history, d + n);
    }
  }

  /** The ring, read from its front, is the newest logs, newest first. */
  lemma ContentsAreNewest<L>(r: Ring<L>, history: seq<L>)
    requires Holds(r, history)
    ensures Items(r, r.size) == Window(history, |r.slots|)
  {
    hide SlotOf;
    var n := |r.slots|;
    forall i | 0 <= i < r.size
      ensures Items(r, r.size)[i] == Window(history, n)[i]
    {
      SlotAfter(|history| - 1 - i, i, n);
    }
  }

  // ---- every schedule -----------------------------------------------------------------------------------

  /** Number of logs whose update has been delivered. */
  function Delivered<L>(w: World<L>, history: seq<L>): int {
    |history| - |w.queue|
  }

  /** What holds in every schedule, late or not. */
  ghost predicate Inv<L>(w: World<L>, history: seq<L>) {
    var n := |w.ring.slots|;
    var done := Delivered(w, history);
    && WellFormed(w.ring)
    && Holds(w.ring, history)
    && 0 <= done
    && (forall i :: 0 <= i < |w.queue| ==> w.queue[i] == Change(done + i >= n, SlotOf(done + i, n)))
    && |w.view| == Min(done, n)
  }

  lemma OpenedInv<L>(n: nat, history: seq<L>)
    requires 0 < n
    ensures Inv(Opened(n, history), history)
    ensures Opened(n, history).view == Window(history, n)
  {
    FilledHolds(n, history);
    ContentsAreNewest(Filled(n, history), history);
  }

  lemma LogInv<L>(w: World<L>, history: seq<L>, log: L)
    requires Inv(w, history)
    ensures Inv(Step(w, Event.Log(log)), history + [log])
  {
    PushHolds(w.ring, history, log);
    assert ChangeOf(w.ring) == Change(|history| >= |w.ring.slots|, SlotOf(|history|, |w.ring.slots|));
  }

  /** One delivery inserts the newest log of the cell and keeps the other entries in order. */
  lemma UpdateInv<L>(w: World<L>, history: seq<L>)
    requires Inv(w, history) && w.queue != []
    ensures Inv(Deliver(w), history)
    ensures var n, d := |w.ring.slots|, Delivered(w, history);
      Deliver(w).view == [Some(history[Latest(d, |history|, n)])] + (if |w.view| == n then w.view[..n - 1] else w.view)
  {
    hide Holds;
    var n, d := |w.ring.slots|, Delivered(w, history);
    assert w.queue[0] == Change(d >= n, SlotOf(d, n));
    SlotHoldsLatest(w.ring, history, d);
    QueueShifts(w, history);
  }

  lemma QueueShifts<L>(w: World<L>, history: seq<L>)
    requires Inv(w, history) && w.queue != []
    ensures var n, d := |w.ring.slots|, Delivered(w, history);
      forall i :: 0 <= i < |w.queue[1..]| ==> w.queue[1..][i] == Change(d + 1 + i >= n, SlotOf(d + 1 + i, n))
  {
    hide Holds;
    forall i | 0 <= i < |w.queue[1..]|
      ensures w.queue[1..][i] == Change(Delivered(w, history) + 1 + i >= |w.ring.slots|, SlotOf(Delivered(w, history) + 1 + i, |w.ring.slots|))
    {
      assert w.queue[1..][i] == w.queue[i + 1];
    }
  }

  /** The lateness of the new front entry; the oldest of a full ring's worth is dropped. */
  function LateStep<L>(w: World<L>, late: seq<bool>, e: Event<L>, n: nat): seq<bool>
    requires 0 < n
  {
    if e.Log? || w.queue == [] then late
    else [|w.queue| > n] + (if |late| == n then late[..n - 1] else late)
  }

  /** For each entry of the view, newest first: whether its update ran after its cell was reused. */
  function Late<L>(n: nat, h0: seq<L>, events: seq<Event<L>>): seq<bool>
    requires 0 < n
  {
    if events == [] then seq(Min(|h0|, n), _ => false)
    else
      var before := events[..|events| - 1];
      var w := Run(Opened(n, h0), before);
      LateStep(w, Late(n, h0, before), events[|events| - 1], n)
  }

  ghost predicate Distinct<L>(history: seq<L>) {
    forall i, j :: 0 <= i < j < |history| ==> history[i] != history[j]
  }

  /** The history after a run. */
  function History<L>(h0: seq<L>, events: seq<Event<L>>): seq<L> {
    h0 + Logged(events)
  }

  /** What the view would show if every delivered update had read its own log. */
  function Should<L>(w: World<L>, history: seq<L>): seq<Option<L>>
    requires |w.queue| <= |history|
  {
    Window(history[..Delivered(w, history)], |w.ring.slots|)
  }

  /** Entry by entry: an entry of the view is right if its update was not late, and, when
      all logs differ, only then. */
  ghost predicate Exact<L>(w: World<L>, history: seq<L>, late: seq<bool>) {
    && |w.queue| <= |history|
    && |late| == |w.view| == |Should(w, history)|
    && (forall i :: 0 <= i < |late| ==> (!late[i] ==> w.view[i] == Should(w, history)[i]))
    && (Distinct(history) ==> forall i :: 0 <= i < |late| ==> (late[i] ==> w.view[i] != Should(w, history)[i]))
  }

  lemma LogExact<L>(w: World<L>, history: seq<L>, late: seq<bool>, log: L)
    requires Inv(w, history) && Exact(w, history, late)
    ensures Exact(Step(w, Event.Log(log)), history + [log], late)
  {
    hide Holds, Window;
    var d := Delivered(w, history);
    assert (history + [log])[..d] == history[..d];
    var w' := Step(w, Event.Log(log));
    assert Delivered(w', history + [log]) == d;
    assert Should(w', history + [log]) == Should(w, history);
    if Distinct(history + [log]) {
      assert forall i :: 0 <= i < |history| ==> (history + [log])[i] == history[i];
    }
  }

  lemma ShouldShifts<L>(w: World<L>, history: seq<L>)
    requires Inv(w, history) && w.queue != []
    ensures var n, d, s := |w.ring.slots|, Delivered(w, history), Should(w, history);
      && Delivered(Deliver(w), history) == d + 1
      && |Deliver(w).ring.slots| == n
      && Window(history[..d + 1], n) == [Some(history[d])] + (if |s| == n then s[..n - 1] else s)
  {
    hide Holds;
  }

  lemma UpdateExact<L>(w: World<L>, history: seq<L>, late: seq<bool>)
    requires Inv(w, history) && w.queue != [] && Exact(w, history, late)
    ensures var n := |w.ring.slots|;
      Exact(Deliver(w), history, [|w.queue| > n] + (if |late| == n then late[..n - 1] else late))
  {
    UpdateInv(w, history);
    ShouldShifts(w, history);
    hide Holds, Window, Inv, Deliver;
    var n, d := |w.ring.slots|, Delivered(w, history);
    var q := Latest(d, |history|, n);
    assert |w.queue| > n <==> q != d;
  }

  lemma StepExact<L>(w: World<L>, h: seq<L>, late: seq<bool>, e: Event<L>)
    requires Inv(w, h) && Exact(w, h, late)
    ensures var h' := if e.Log? then h + [e.log] else h;
      && Inv(Step(w, e), h')
      && Exact(Step(w, e), h', LateStep(w, late, e, |w.ring.slots|))
      && |Step(w, e).ring.slots| == |w.ring.slots|
  {
    assert WellFormed(w.ring);
    hide Inv, Exact;
    if e.Log? {
      LogInv(w, h, e.log);
      LogExact(w, h, late, e.log);
    } else if w.queue != [] {
      UpdateInv(w, h);
      UpdateExact(w, h, late);
    }
  }

  /** Every schedule of logs and updates: an entry is right if, and with distinct logs only if,
      its update ran while at most a ring's worth of updates were waiting. */
  lemma {:induction false} EveryEntryIsExactlyTimely<L>(n: nat, h0: seq<L>, events: seq<Event<L>>)
    requires 0 < n
    ensures Inv(Run(Opened(n, h0), events), History(h0, events))
    ensures Exact(Run(Opened(n, h0), events), History(h0, events), Late(n, h0, events))
    ensures |Run(Opened(n, h0), events).ring.slots| == n
  {
    hide Inv, Exact, Step, LateStep;
    if events == [] {
      OpenedExact(n, h0);
      assert h0 + [] == h0;
    } else {
      var before, e := events[..|events| - 1], events[|events| - 1];
      EveryEntryIsExactlyTimely(n, h0, before);
      StepExact(Run(Opened(n, h0), before), History(h0, before), Late(n, h0, before), e);
      assert e.Log? ==> History(h0, events) == History(h0, before) + [e.log];
      assert e.Update? ==> History(h0, events) == History(h0, before);
    }
  }

  lemma OpenedExact<L>(n: nat, h0: seq<L>)
    requires 0 < n
    ensures Inv(Opened(n, h0), h0) && Exact(Opened(n, h0), h0, Late(n, h0, []))
    ensures |Opened(n, h0).ring.slots| == n
  {
    OpenedInv(n, h0);
    assert h0[..|h0|] == h0;
  }

  /** Every update ran while at most a ring's worth of updates were waiting. */
  predicate Timely<L>(n: nat, h0: seq<L>, events: seq<Event<L>>)
    requires 0 < n
  {
    events == [] ||
    (var before := events[..|events| - 1];
    Timely(n, h0, before) && (events[|events| - 1].Update? ==> |Run(Opened(n, h0), before).queue| <= n))
  }

  lemma {:induction false} TimelyIsNeverLate<L>(n: nat, h0: seq<L>, events: seq<Event<L>>)
    requires 0 < n && Timely(n, h0, events)
    ensures forall i :: 0 <= i < |Late(n, h0, events)| ==> !Late(n, h0, events)[i]
  {
    if events != [] {
      TimelyIsNeverLate(n, h0, events[..|events| - 1]);
      hide Run;
    }
  }

  /** With timely updates the view is the newest of the delivered logs, newest first; when the
      queue is drained it is what the ring holds. */
  lemma TimelyViewMirrorsRing<L>(n: nat, h0: seq<L>, events: seq<Event<L>>)
    requires 0 < n && Timely(n, h0, events)
    ensures var w, h := Run(Opened(n, h0), events), History(h0, events);
      && |w.queue| <= |h|
      && w.view == Window(h[..Delivered(w, h)], n)
      && (w.queue == [] ==> WellFormed(w.ring) && w.view == Items(w.ring, w.ring.size))
  {
    var w, h := Run(Opened(n, h0), events), History(h0, events);
    EveryEntryIsExactlyTimely(n, h0, events);
    TimelyIsNeverLate(n, h0, events);
    assert w.view == Should(w, h);
    if w.queue == [] {
      assert h[..|h|] == h;
      ContentsAreNewest(w.ring, h);
    }
  }

  function LogEvents<L>(logs: seq<L>): (s: seq<Event<L>>) {
    seq(|logs|, i requires 0 <= i < |logs| => Event.Log(logs[i]))
  }

  lemma {:induction false} UpdatesPileUp<L>(n: nat, logs: seq<L>)
    requires 0 < n
    ensures var w := Run(Opened(n, []), LogEvents(logs));
      Inv(w, logs) && |w.ring.slots| == n && |w.queue| == |logs| && Late(n, [], LogEvents(logs)) == []
  {
    hide Inv;
    if logs == [] {
      OpenedInv<L>(n, []);
      assert LogEvents(logs) == [];
    } else {
      var before, log := logs[..|logs| - 1], logs[|logs| - 1];
      var events := LogEvents(logs);
      UpdatesPileUp(n, before);
      assert events[..|events| - 1] == LogEvents(before);
      LogInv(Run(Opened(n, []), LogEvents(before)), before, log);
      assert before + [log] == logs;
    }
  }

  /** Late entries occur for every capacity: after more logs than cells and no update in between,
      the first update is late, and one log too many is then shown instead of the first. */
  lemma FirstUpdateIsLateExactly<L>(n: nat, logs: seq<L>)
    requires 0 < n && logs != []
    ensures var events := LogEvents(logs) + [Event.Update];
      var view := Run(Opened(n, []), events).view;
      && Late(n, [], events) == [|logs| > n]
      && (|logs| <= n ==> view == [Some(logs[0])])
      && (|logs| == n + 1 ==> view == [Some(logs[n])])
  {
    var events := LogEvents(logs) + [Event.Update];
    var w := Run(Opened(n, []), LogEvents(logs));
    UpdatesPileUp(n, logs);
    assert events[..|events| - 1] == LogEvents(logs);
    UpdateInv(w, logs);
    assert w.view == [];
    hide Inv, Holds, Deliver;
  }

  // ---- the objects --------------------------------------------------------------------------------------

  class Logger<L> {
    const slots: array<Option<L>>
    var first: nat
    var size: nat

    ghost predicate Valid()
      reads this, slots
    {
      WellFormed(Contents())
    }

    ghost function Contents(): Ring<L>
      reads this, slots
    {
      Ring(slots[..], first, size)
    }

    constructor (capacity: nat)
      requires 0 < capacity
      ensures Valid() && fresh(slots) && Contents() == Filled(capacity, [])
    {
      slots := new Option<L>[capacity](_ => None);
      first, size := 0, 0;
      new;
      assert slots[..] == seq(capacity, _ => None);
    }

    /** Stores a log in the cell before the front, over the oldest one when the ring is full,
        and says what changed. */
    method AddLog(log: L) returns (change: Change)
      requires Valid()
      modifies this, slots
      ensures Valid()
      ensures Contents() == old(Push(Contents(), log)) && change == old(ChangeOf(Contents()))
    {
      var isFull := size == slots.Length;
      first := if first == 0 then slots.Length - 1 else first - 1;
      slots[first] := Some(log);
      if !isFull {
        size := size + 1;
      }
      change := Change(isFull, first);
    }
  }

  class LogsViewModel<L> {
    const logger: Logger<L>
    var queue: seq<Change>
    var logs: seq<Option<L>>

    ghost function Abs(): World<L>
      reads this, logger, logger.slots
    {
      World(logger.Contents(), queue, logs)
    }

    constructor (logger: Logger<L>)
      requires logger.Valid()
      ensures this.logger == logger && queue == [] && logs == Items(logger.Contents(), logger.size)
    {
      this.logger := logger;
      queue, logs := [], [];
      new;
      var i := 0;
      while i < logger.size
        invariant i <= logger.size && logger.Valid() && this.logger == logger && queue == []
        invariant logs == Items(logger.Contents(), i)
      {
        var slot := if logger.first + i < logger.slots.Length then logger.first + i
          else logger.first + i - logger.slots.Length;
        logs := logs + [logger.slots[slot]];
        i := i + 1;
      }
    }

    method OnCollectionChanged(change: Change)
      modifies this
      ensures queue == old(queue) + [change] && logs == old(logs)
    {
      queue := queue + [change];
    }

    /** Runs the oldest queued callback: an insertion at index 0, then maybe a removal at the end. */
    method RunNext()
      requires logger.Valid()
      modifies this
      ensures Abs() == old(Deliver(Abs()))
    {
      if queue == [] || queue[0].slot >= logger.slots.Length {
        return;
      }
      var change := queue[0];
      queue := queue[1..];
      logs := [logger.slots[change.slot]] + logs;
      if change.removesLast {
        logs := logs[..|logs| - 1];
      }
    }
  }

  /** A log reaches the ring and, as a change, the listener. */
  method AddLogAndNotify<L>(viewModel: LogsViewModel<L>, log: L)
    requires viewModel.logger.Valid()
    modifies viewModel, viewModel.logger, viewModel.logger.slots
    ensures viewModel.logger.Valid()
    ensures viewModel.Abs() == old(Step(viewModel.Abs(), Event.Log(log)))
  {
    var change := viewModel.logger.AddLog(log);
    viewModel.OnCollectionChanged(change);
  }
}
