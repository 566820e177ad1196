/** The cache of window states, kept current by window events. */
module WindowCache {
  import opened Win32

  type Handle = nat

  datatype Margin = Margin(x: int, y: int, w: int, h: int)

  datatype Result<T> = Ok(value: T) | Err(hr: HResult)

  /** What the two title calls answer: a length, the last error left, and the text copied. */
  datatype TitleAnswer = TitleAnswer(length: int, lastError: Dword, text: string)

  /** What the system answers about a handle at one time. A null monitor is 0. */
  datatype Facts = Facts(
    title: TitleAnswer, margin: Result<Margin>, monitor: nat, windowClass: Result<string>, process: Result<string>)

  datatype What = Title | ShadowMargin | Monitor | WindowClass | ProcessName

  datatype Answer = Text(text: string) | Rect(margin: Margin) | Screen(monitor: nat) | Thrown(hr: HResult)

  // ---- the reference: asking the system every time -----------------------------------------------

  /** An empty title is told from an error by the last error. */
  function QueryTitle(a: TitleAnswer): Result<string> {
    if a.length <= 0 then (if a.lastError == 0 then Ok("") else Err(HResultFromWin32(a.lastError)))
    else if a.text == "" then Err(E_FAIL)
    else Ok(a.text)
  }

  function TextAnswer(r: Result<string>): Answer {
    match r case Ok(t) => Text(t) case Err(hr) => Thrown(hr)
  }

  function Fresh(f: Facts, what: What): Answer {
    match what
    case Title => TextAnswer(QueryTitle(f.title))
    case ShadowMargin => (match f.margin case Ok(m) => Rect(m) case Err(hr) => Thrown(hr))
    case Monitor => Screen(f.monitor)
    case WindowClass => TextAnswer(f.windowClass)
    case ProcessName => TextAnswer(f.process)
  }

  // ---- one cached window -----------------------------------------------------------------------------

  datatype Entry = Entry(
    title: string, titleDirty: bool, margin: Margin, marginDirty: bool, monitor: nat,
    windowClass: string, classLoaded: bool, process: string, processLoaded: bool)

  const NEW_ENTRY := Entry("", true, Margin(0, 0, 0, 0), true, 0, "", false, "", false)

  /** A getter: the cached value if it is clean, otherwise the answer, kept unless it failed.
      An empty title is answered but not kept. */
  function Fetch(e: Entry, f: Facts, what: What): (Entry, Answer) {
    match what
    case Title =>
      if !e.titleDirty then (e, Text(e.title))
      else (match QueryTitle(f.title)
        case Ok(t) => (e.(title := t, titleDirty := f.title.length <= 0), Text(t))
        case Err(hr) => (e, Thrown(hr)))
    case ShadowMargin =>
      if !e.marginDirty then (e, Rect(e.margin))
      else (match f.margin
        case Ok(m) => (e.(margin := m, marginDirty := false), Rect(m))
        case Err(hr) => (e, Thrown(hr)))
    case Monitor =>
      if e.monitor != 0 then (e, Screen(e.monitor)) else (e.(monitor := f.monitor), Screen(f.monitor))
    case WindowClass =>
      if e.classLoaded then (e, Text(e.windowClass))
      else (match f.windowClass
        case Ok(t) => (e.(windowClass := t, classLoaded := true), Text(t))
        case Err(hr) => (e, Thrown(hr)))
    case ProcessName =>
      if e.processLoaded then (e, Text(e.process))
      else (match f.process
        case Ok(t) => (e.(process := t, processLoaded := true), Text(t))
        case Err(hr) => (e, Thrown(hr)))
  }

  function InvalidateLocation(e: Entry): Entry {
    e.(monitor := 0, marginDirty := true)
  }

  function InvalidateTitle(e: Entry): Entry {
    e.(titleDirty := true)
  }

  // ---- events -------------------------------------------------------------------------------------------

  datatype EventKind = Foreground | Show | Destroy | LocationChange | NameChange | Other

  /** An event about a handle: whether its object and child identifiers are those of the window
      itself, whether the handle is its own root when it is handled, and whether memory lasts. */
  datatype WinEvent = WinEvent(kind: EventKind, hwnd: Handle, isWindow: bool, isSelf: bool, isRoot: bool, memory: bool)

  type Storage = map<Handle, Entry>

  function GetOrCreate(s: Storage, h: Handle, memory: bool): Storage {
    if h in s || !memory then s else s[h := NEW_ENTRY]
  }

  function ProcessWindowEvent(s: Storage, kind: EventKind, h: Handle): Storage {
    match kind
    case Destroy => s - {h}
    case LocationChange => if h in s then s[h := InvalidateLocation(s[h])] else s
    case NameChange => if h in s then s[h := InvalidateTitle(s[h])] else s
    case _ => s
  }

  predicate Accepted(e: WinEvent) {
    e.isWindow && e.isSelf && e.isRoot
  }

  /** A foreground event makes an entry before the identifiers are looked at. */
  function Dispatch(s: Storage, e: WinEvent): Storage {
    if e.kind == Foreground then GetOrCreate(s, e.hwnd, e.memory)
    else if !Accepted(e) then s
    else if e.kind == Show then GetOrCreate(s, e.hwnd, e.memory)
    else ProcessWindowEvent(s, e.kind, e.hwnd)
  }

  // ---- histories ----------------------------------------------------------------------------------------

  /** What happens: a window is renamed or moved, a handle changes its window, an event is
      delivered, or a client reads. */
  datatype Step =
    | Rename(h: Handle, title: TitleAnswer)
    | Move(h: Handle, margin: Result<Margin>, monitor: nat)
    | Replace(h: Handle, facts: Facts)
    | Deliver(event: WinEvent)
    | Read(h: Handle, what: What)

  const NO_WINDOW := Facts(TitleAnswer(0, 1400, ""), Err(E_FAIL), 0, Err(E_FAIL), Err(E_FAIL))

  /** The system, the cache, and, for cached handles, the changes whose event is still to come. */
  datatype World = World(
    os: map<Handle, Facts>, storage: Storage, renamed: set<Handle>, moved: set<Handle>, replaced: set<Handle>)

  function FactsOf(w: World, h: Handle): Facts {
    if h in w.os then w.os[h] else NO_WINDOW
  }

  function Mark(s: set<Handle>, h: Handle, w: World): set<Handle> {
    if h in w.storage then s + {h} else s
  }

  function DeliverTo(w: World, e: WinEvent): World {
    var s := Dispatch(w.storage, e);
    if !Accepted(e) then w.(storage := s)
    else match e.kind
      case NameChange => w.(storage := s, renamed := w.renamed - {e.hwnd})
      case LocationChange => w.(storage := s, moved := w.moved - {e.hwnd})
      case Destroy =>
        w.(storage := s, renamed := w.renamed - {e.hwnd}, moved := w.moved - {e.hwnd}, replaced := w.replaced - {e.hwnd})
      case _ => w.(storage := s)
  }

  function Take(w: World, step: Step): World {
    match step
    case Rename(h, t) => w.(os := w.os[h := FactsOf(w, h).(title := t)], renamed := Mark(w.renamed, h, w))
    case Move(h, m, n) =>
      w.(os := w.os[h := FactsOf(w, h).(margin := m, monitor := n)], moved := Mark(w.moved, h, w))
    case Replace(h, f) => w.(os := w.os[h := f], replaced := Mark(w.replaced, h, w))
    case Deliver(e) => DeliverTo(w, e)
    case Read(h, what) =>
      if h in w.storage then w.(storage := w.storage[h := Fetch(w.storage[h], FactsOf(w, h), what).0]) else w
  }

  const START := World(map[], map[], {}, {}, {})

  function Run(steps: seq<Step>): World {
    if steps == [] then START else Take(Run(steps[..|steps| - 1]), steps[|steps| - 1])
  }

  /** The answers that the reads of a history get; only cached handles can be read. */
  function Answers(steps: seq<Step>): seq<Answer> {
    if steps == [] then []
    else
      var w, last := Run(steps[..|steps| - 1]), steps[|steps| - 1];
      Answers(steps[..|steps| - 1])
      + (if last.Read? && last.h in w.storage then [Fetch(w.storage[last.h], FactsOf(w, last.h), last.what).1] else [])
  }

  /** The answers that asking the system at each read would give. */
  function FreshAnswers(steps: seq<Step>): seq<Answer> {
    if steps == [] then []
    else
      var w, last := Run(steps[..|steps| - 1]), steps[|steps| - 1];
      FreshAnswers(steps[..|steps| - 1])
      + (if last.Read? && last.h in w.storage then [Fresh(FactsOf(w, last.h), last.what)] else [])
  }

  /** The event that a reading depends on is still to come. */
  predicate Owed(w: World, h: Handle, what: What) {
    || h in w.replaced
    || (what == Title && h in w.renamed)
    || ((what == ShadowMargin || what == Monitor) && h in w.moved)
  }

  predicate Prompt(steps: seq<Step>) {
    steps == [] ||
    (var w, last := Run(steps[..|steps| - 1]), steps[|steps| - 1];
     Prompt(steps[..|steps| - 1]) && (last.Read? ==> !Owed(w, last.h, last.what)))
  }

  // ---- what every history keeps -----------------------------------------------------------------------

  /** A value that is kept for an aspect whose event is not owed is the value in force. */
  predicate Current(e: Entry, f: Facts, what: What) {
    match what
    case Title => !e.titleDirty ==> QueryTitle(f.title) == Ok(e.title)
    case ShadowMargin => !e.marginDirty ==> f.margin == Ok(e.margin)
    case Monitor => e.monitor != 0 ==> f.monitor == e.monitor
    case WindowClass => e.classLoaded ==> f.windowClass == Ok(e.windowClass)
    case ProcessName => e.processLoaded ==> f.process == Ok(e.process)
  }

  ghost predicate Inv(w: World) {
    && w.renamed + w.moved + w.replaced <= w.storage.Keys
    && forall h, what :: h in w.storage && !Owed(w, h, what) ==> Current(w.storage[h], FactsOf(w, h), what)
  }

  /** A getter answers as the system would exactly when what it keeps is current; it leaves
      other aspects as current as they were, and an error leaves the entry as it was. */
  lemma FetchIsFreshExactly(e: Entry, f: Facts, what: What)
    ensures Fetch(e, f, what).1 == Fresh(f, what) <==> Current(e, f, what)
    ensures Fetch(e, f, what).1.Thrown? ==> Fetch(e, f, what).0 == e
    ensures forall other :: Current(e, f, other) <==> Current(Fetch(e, f, what).0, f, other)
  {
  }

  lemma DeliverKeepsInv(w: World, e: WinEvent)
    requires Inv(w)
    ensures Inv(DeliverTo(w, e))
  {
    var r := DeliverTo(w, e);
    forall h, what | h in r.storage && !Owed(r, h, what)
      ensures Current(r.storage[h], FactsOf(r, h), what)
    {
      if h != e.hwnd || h !in w.storage {
        assert h in w.storage ==> !Owed(w, h, what);
      } else if Owed(w, h, what) {
        assert Accepted(e);
      }
    }
  }

  lemma TakeKeepsInv(w: World, step: Step)
    requires Inv(w)
    ensures Inv(Take(w, step))
  {
    match step {
      case Deliver(e) =>
        DeliverKeepsInv(w, e);
      case Read(h, what) =>
        if h in w.storage {
          FetchIsFreshExactly(w.storage[h], FactsOf(w, h), what);
          hide Current, Fetch;
          var r := Take(w, step);
          forall g, other | g in r.storage && !Owed(r, g, other)
            ensures Current(r.storage[g], FactsOf(r, g), other)
          {
            assert !Owed(w, g, other);
          }
        }
      case _ =>
        var r := Take(w, step);
        forall g, other | g in r.storage && !Owed(r, g, other)
          ensures Current(r.storage[g], FactsOf(r, g), other)
        {
          assert !Owed(w, g, other);
          assert Current(w.storage[g], FactsOf(w, g), other);
        }
    }
  }

  lemma {:induction false} RunKeepsInv(steps: seq<Step>)
    ensures Inv(Run(steps))
  {
    if steps != [] {
      RunKeepsInv(steps[..|steps| - 1]);
      hide Inv, Take;
      TakeKeepsInv(Run(steps[..|steps| - 1]), steps[|steps| - 1]);
    }
  }

  /** If every change is delivered before the next reading that depends on it, the cache is
      invisible: every reading gets the answer that asking the system would give. */
  lemma {:induction false} CacheIsInvisible(steps: seq<Step>)
    requires Prompt(steps)
    ensures Answers(steps) == FreshAnswers(steps)
  {
    if steps != [] {
      var w, last := Run(steps[..|steps| - 1]), steps[|steps| - 1];
      CacheIsInvisible(steps[..|steps| - 1]);
      RunKeepsInv(steps[..|steps| - 1]);
      if last.Read? && last.h in w.storage {
        FetchIsFreshExactly(w.storage[last.h], FactsOf(w, last.h), last.what);
      }
    }
  }

  /** A destroy event removes the entry exactly when its identifiers are those of the window
      itself and the handle is its own root; the handle's next entry is then new, nothing is
      owed for it, and all that is read from it is fresh. */
  lemma DestroyedHandleStartsFresh(steps: seq<Step>, e: WinEvent, show: WinEvent, what: What)
    requires e.kind == Destroy && e.hwnd in Run(steps).storage
    requires show.kind == Foreground || (show.kind == Show && Accepted(show))
    requires show.hwnd == e.hwnd && show.memory
    ensures var h, after := e.hwnd, Run(steps + [Deliver(e)]);
      && (h !in after.storage <==> Accepted(e))
      && (Accepted(e) ==>
           var w := Take(after, Deliver(show));
           && w.storage[h] == NEW_ENTRY
           && !Owed(w, h, what)
           && Fetch(w.storage[h], FactsOf(w, h), what).1 == Fresh(FactsOf(w, h), what))
  {
    RunKeepsInv(steps);
    assert (steps + [Deliver(e)])[..|steps|] == steps;
    var after := Run(steps + [Deliver(e)]);
    assert after == DeliverTo(Run(steps), e);
    if Accepted(e) {
      var w := Take(after, Deliver(show));
      assert e.hwnd !in after.storage;
      assert w.storage == after.storage[e.hwnd := NEW_ENTRY];
      assert !Owed(after, e.hwnd, what);
      assert !Owed(w, e.hwnd, what);
    }
    FetchIsFreshExactly(NEW_ENTRY, FactsOf(Take(after, Deliver(show)), e.hwnd), what);
  }

  /** A window that is not its own root comes to the front, is read, and is destroyed. */
  function ChildStory(h: Handle, first: Facts, second: Facts): seq<Step> {
    var front := WinEvent(Foreground, h, true, true, false, true);
    [Replace(h, first), Deliver(front), Read(h, WindowClass), Replace(h, second), Deliver(front.(kind := Destroy))]
  }

  lemma FirstReadLoadsClass(h: Handle, first: Facts, front: WinEvent)
    requires first.windowClass.Ok? && front.kind == Foreground && front.hwnd == h && front.memory
    ensures var w := Take(Take(Take(START, Replace(h, first)), Deliver(front)), Read(h, WindowClass));
      h in w.storage && w.storage[h].classLoaded && w.storage[h].windowClass == first.windowClass.value
  {
  }

  lemma RefusedDestroyKeepsEntry(w: World, h: Handle, second: Facts, gone: WinEvent)
    requires h in w.storage && gone.kind == Destroy && !Accepted(gone)
    ensures var r := Take(Take(w, Replace(h, second)), Deliver(gone));
      r.storage == w.storage && FactsOf(r, h) == second
  {
  }

  /** Its entry outlives it: the next window with that handle is taken for the old one. */
  lemma ChildWindowOutlivesItself(h: Handle, first: Facts, second: Facts)
    requires first.windowClass.Ok? && second.windowClass != first.windowClass
    ensures var w := Run(ChildStory(h, first, second));
      && h in w.storage
      && Fetch(w.storage[h], FactsOf(w, h), WindowClass).1 != Fresh(FactsOf(w, h), WindowClass)
  {
    hide Take, FactsOf, Run;
    var front := WinEvent(Foreground, h, true, true, false, true);
    var gone := front.(kind := Destroy);
    var w := Take(Take(Take(START, Replace(h, first)), Deliver(front)), Read(h, WindowClass));
    RunOfFive(Replace(h, first), Deliver(front), Read(h, WindowClass), Replace(h, second), Deliver(gone));
    FirstReadLoadsClass(h, first, front);
    RefusedDestroyKeepsEntry(w, h, second, gone);
  }

  predicate AcceptedDestroy(step: Step, h: Handle) {
    step.Deliver? && step.event.kind == Destroy && step.event.hwnd == h && Accepted(step.event)
  }

  /** Nothing but an accepted destroy event for its handle removes an entry, and the class it
      loaded is answered as long as it stays, whatever happens. */
  lemma {:induction false} EntryStays(steps: seq<Step>, more: seq<Step>, h: Handle)
    requires h in Run(steps).storage
    requires forall i :: 0 <= i < |more| ==> !AcceptedDestroy(more[i], h)
    ensures h in Run(steps + more).storage
    ensures var e, f := Run(steps).storage[h], Run(steps + more).storage[h];
      e.classLoaded ==> f.classLoaded && f.windowClass == e.windowClass
  {
    if more == [] {
      assert steps + more == steps;
    } else {
      var n := |more| - 1;
      EntryStays(steps, more[..n], h);
      assert steps + more == (steps + more[..n]) + [more[n]];
      RunStep(steps + more[..n], more[n]);
      StepKeepsEntry(Run(steps + more[..n]), more[n], h);
    }
  }

  lemma StepKeepsEntry(w: World, step: Step, h: Handle)
    requires h in w.storage && !AcceptedDestroy(step, h)
    ensures h in Take(w, step).storage
    ensures var e, f := w.storage[h], Take(w, step).storage[h];
      e.classLoaded ==> f.classLoaded && f.windowClass == e.windowClass
  {
  }

  /** So the entry of a window that is not its own root stays for good: its destroy events are
      never accepted. */
  lemma ChildEntryStaysForGood(h: Handle, first: Facts, second: Facts, more: seq<Step>)
    requires first.windowClass.Ok?
    requires forall i :: 0 <= i < |more| ==> more[i].Deliver? && more[i].event.hwnd == h ==> !more[i].event.isRoot
    ensures var w := Run(ChildStory(h, first, second) + more);
      h in w.storage && Fetch(w.storage[h], FactsOf(w, h), WindowClass).1 == Text(first.windowClass.value)
  {
    var story := ChildStory(h, first, second);
    RunOfFive(story[0], story[1], story[2], story[3], story[4]);
    assert story == [story[0], story[1], story[2], story[3], story[4]];
    FirstReadLoadsClass(h, first, story[1].event);
    var w := Take(Take(Take(START, story[0]), story[1]), story[2]);
    RefusedDestroyKeepsEntry(w, h, second, story[4].event);
    EntryStays(story, more, h);
    hide Take, Run;
  }

  lemma RunOfFive(a: Step, b: Step, c: Step, d: Step, e: Step)
    ensures Run([a, b, c, d, e]) == Take(Take(Take(Take(Take(START, a), b), c), d), e)
  {
    hide Take;
    RunStep([], a);
    RunStep([a], b);
    RunStep([a, b], c);
    RunStep([a, b, c], d);
    RunStep([a, b, c, d], e);
    assert [] + [a] == [a] && [a] + [b] == [a, b] && [a, b] + [c] == [a, b, c];
    assert [a, b, c] + [d] == [a, b, c, d] && [a, b, c, d] + [e] == [a, b, c, d, e];
  }

  lemma RunStep(steps: seq<Step>, s: Step)
    ensures Run(steps + [s]) == Take(Run(steps), s)
  {
    assert (steps + [s])[..|steps|] == steps;
  }

  // ---- the objects ------------------------------------------------------------------------------------

  class State {
    const hwnd: Handle
    var title: string
    var titleDirty: bool
    var margin: Margin
    var marginDirty: bool
    var monitor: nat
    var windowClass: string
    var classLoaded: bool
    var process: string
    var processLoaded: bool

    ghost function Abs(): Entry
      reads this
    {
      Entry(title, titleDirty, margin, marginDirty, monitor, windowClass, classLoaded, process, processLoaded)
    }

    constructor (hwnd: Handle)
      ensures this.hwnd == hwnd && Abs() == NEW_ENTRY
    {
      this.hwnd := hwnd;
      title, titleDirty, margin, marginDirty, monitor := "", true, Margin(0, 0, 0, 0), true, 0;
      windowClass, classLoaded, process, processLoaded := "", false, "", false;
    }

    method HMonitor(f: Facts) returns (r: Answer)
      modifies this
      ensures (Abs(), r) == old(Fetch(Abs(), f, Monitor))
    {
      if monitor == 0 {
        monitor := f.monitor;
      }
      r := Screen(monitor);
    }

    method GetShadowMargin(f: Facts) returns (r: Answer)
      modifies this
      ensures (Abs(), r) == old(Fetch(Abs(), f, ShadowMargin))
    {
      if marginDirty {
        if f.margin.Err? {
          return Thrown(f.margin.hr);
        }
        margin, marginDirty := f.margin.value, false;
      }
      r := Rect(margin);
    }

    method GetWindowClass(f: Facts) returns (r: Answer)
      modifies this
      ensures (Abs(), r) == old(Fetch(Abs(), f, WindowClass))
    {
      if !classLoaded {
        if f.windowClass.Err? {
          return Thrown(f.windowClass.hr);
        }
        windowClass, classLoaded := f.windowClass.value, true;
      }
      r := Text(windowClass);
    }

    method GetProcessName(f: Facts) returns (r: Answer)
      modifies this
      ensures (Abs(), r) == old(Fetch(Abs(), f, ProcessName))
    {
      if !processLoaded {
        if f.process.Err? {
          return Thrown(f.process.hr);
        }
        process, processLoaded := f.process.value, true;
      }
      r := Text(process);
    }

    method GetWindowTitle(f: Facts) returns (r: Answer)
      modifies this
      ensures (Abs(), r) == old(Fetch(Abs(), f, Title))
    {
      if !titleDirty {
        return Text(title);
      }
      if f.title.length <= 0 {
        if f.title.lastError != 0 {
          return Thrown(HResultFromWin32(f.title.lastError));
        }
        title := "";
        return Text(title);
      }
      if f.title.text == "" {
        return Thrown(E_FAIL);
      }
      title, titleDirty := f.title.text, false;
      r := Text(title);
    }

    method InvalidateWindowLocation()
      modifies this
      ensures Abs() == old(InvalidateLocation(Abs()))
    {
      monitor, marginDirty := 0, true;
    }

    method InvalidateWindowTitle()
      modifies this
      ensures Abs() == old(InvalidateTitle(Abs()))
    {
      titleDirty := true;
    }
  }

  class StateCache {
    var storage: map<Handle, State>

    /** Each state is filed under its own handle, so no two handles share one. */
    ghost predicate Valid()
      reads this
    {
      forall h :: h in storage ==> storage[h].hwnd == h
    }

    ghost function Abs(): Storage
      reads this, storage.Values
    {
      map h | h in storage :: storage[h].Abs()
    }

    constructor ()
      ensures Valid() && Abs() == map[]
    {
      storage := map[];
    }

    method TryGetOrCreate(h: Handle, memory: bool) returns (s: State?)
      requires Valid()
      modifies this
      ensures Valid() && Abs() == old(GetOrCreate(Abs(), h, memory))
      ensures if h in storage then s == storage[h] else s == null
      ensures forall g :: g in storage ==> (g in old(storage) && storage[g] == old(storage)[g]) || fresh(storage[g])
    {
      if h in storage {
        return storage[h];
      }
      if !memory {
        return null;
      }
      s := new State(h);
      storage := storage[h := s];
    }

    method ProcessEvent(kind: EventKind, h: Handle)
      requires Valid()
      modifies this, storage.Values
      ensures Valid() && Abs() == old(ProcessWindowEvent(Abs(), kind, h))
      ensures forall g :: g in storage ==> g in old(storage) && storage[g] == old(storage)[g]
    {
      match kind {
        case Destroy =>
          storage := storage - {h};
        case LocationChange =>
          if h in storage {
            storage[h].InvalidateWindowLocation();
          }
        case NameChange =>
          if h in storage {
            storage[h].InvalidateWindowTitle();
          }
        case _ =>
      }
    }

    /** The hook's callback. A foreground event goes on to the cache, where it does nothing. */
    method WinEventProc(e: WinEvent)
      requires Valid()
      modifies this, storage.Values
      ensures Valid() && Abs() == old(Dispatch(Abs(), e))
    {
      if e.kind == Foreground {
        var s := TryGetOrCreate(e.hwnd, e.memory);
        if s == null {
          return;
        }
      }
      if !e.isWindow || !e.isSelf {
        return;
      }
      if !e.isRoot {
        return;
      }
      if e.kind == Show {
        var s := TryGetOrCreate(e.hwnd, e.memory);
      } else {
        ProcessEvent(e.kind, e.hwnd);
      }
    }
  }
}
