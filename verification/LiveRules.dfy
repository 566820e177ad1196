/** Settings, cached windows and the rule engine in one history of the running program. */
module LiveRules {
  import opened Wrappers
  import opened MatchPattern
  import opened SettingsTree
  import RuleEngine
  import Triggers
  import WindowCache

  type Flag = Triggers.Flag
  type Handle = WindowCache.Handle

  // ---- one check through the getters ---------------------------------------------------------------

  function Getter(k: FilterKey): WindowCache.What {
    match k
    case ProcessName => WindowCache.ProcessName
    case WindowClass => WindowCache.WindowClass
    case WindowTitle => WindowCache.Title
  }

  /** What the getters leave in the entry, and whether the condition holds; None for a getter that
      threw. Later predicates are not asked after one that fails. */
  function Ask(e: WindowCache.Entry, f: WindowCache.Facts, condition: seq<RuleEngine.Predicate>)
    : (WindowCache.Entry, Option<bool>)
    decreases |condition|
  {
    if condition == [] then (e, Some(true))
    else
      var p := condition[0];
      var (e', a) := WindowCache.Fetch(e, f, Getter(p.field));
      match a
      case Text(t) => if RuleEngine.Matches(Pattern(p.kind, p.data), t) then Ask(e', f, condition[1..]) else (e', Some(false))
      case _ => (e', None)
  }

  datatype Checked = Checked(entry: WindowCache.Entry, executed: seq<RuleEngine.Operation>, thrown: bool)

  /** The rules of a set in order, up to the first getter that throws. */
  function Check(e: WindowCache.Entry, f: WindowCache.Facts, rules: seq<RuleEngine.Rule>, trigger: Flag): Checked {
    if rules == [] then Checked(e, [], false)
    else
      var before, r := Check(e, f, rules[..|rules| - 1], trigger), rules[|rules| - 1];
      if before.thrown || trigger !in r.triggers then before
      else
        var (e', matched) := Ask(before.entry, f, r.condition);
        match matched
        case None => before.(entry := e', thrown := true)
        case Some(m) => Checked(e', before.executed + (if m then [r.operation] else []), false)
  }

  /** The loop of the engine over a cached window; a getter that throws ends the program. */
  method CheckRules(engine: RuleEngine.Engine, s: WindowCache.State, f: WindowCache.Facts, trigger: Flag)
    returns (executed: seq<RuleEngine.Operation>)
    modifies s, engine`terminated
    ensures engine.hasContext && !old(engine.terminated) ==>
      Checked(s.Abs(), executed, engine.terminated) == Check(old(s.Abs()), f, engine.ruleSet, trigger)
    ensures !engine.hasContext || old(engine.terminated) ==>
      s.Abs() == old(s.Abs()) && executed == [] && engine.terminated == old(engine.terminated)
  {
    executed := [];
    if engine.terminated || !engine.hasContext {
      return;
    }
    ghost var first := s.Abs();
    var rules := engine.ruleSet;
    for i := 0 to |rules|
      invariant Check(first, f, rules[..i], trigger) == Checked(s.Abs(), executed, false)
      invariant !engine.terminated && engine.ruleSet == rules
    {
      assert rules[..i + 1][..i] == rules[..i];
      var rule := rules[i];
      if trigger !in rule.triggers {
        continue;
      }
      var matched := Evaluate(s, f, rule.condition);
      if matched.None? {
        engine.terminated := true;
        ThrownStays(first, f, rules, trigger, i + 1);
        return;
      }
      if matched.value {
        executed := executed + [rule.operation];
      }
    }
    assert rules[..|rules|] == rules;
  }

  /** The inner loop, which breaks off at the first predicate that does not hold. */
  method Evaluate(s: WindowCache.State, f: WindowCache.Facts, condition: seq<RuleEngine.Predicate>)
    returns (matched: Option<bool>)
    modifies s
    ensures (s.Abs(), matched) == Ask(old(s.Abs()), f, condition)
  {
    for j := 0 to |condition|
      invariant Ask(s.Abs(), f, condition[j..]) == Ask(old(s.Abs()), f, condition)
    {
      assert condition[j..][1..] == condition[j + 1..];
      var p := condition[j];
      var a;
      match p.field {
        case ProcessName => a := s.GetProcessName(f);
        case WindowClass => a := s.GetWindowClass(f);
        case WindowTitle => a := s.GetWindowTitle(f);
      }
      if !a.Text? {
        return None;
      }
      if !RuleEngine.Matches(Pattern(p.kind, p.data), a.text) {
        return Some(false);
      }
    }
    matched := Some(true);
  }

  lemma {:induction false} ThrownStays(
    e: WindowCache.Entry, f: WindowCache.Facts, rules: seq<RuleEngine.Rule>, trigger: Flag, n: nat)
    requires n <= |rules| && Check(e, f, rules[..n], trigger).thrown
    ensures Check(e, f, rules, trigger) == Check(e, f, rules[..n], trigger)
    decreases |rules| - n
  {
    if n < |rules| {
      assert rules[..n + 1][..n] == rules[..n];
      ThrownStays(e, f, rules, trigger, n + 1);
    } else {
      assert rules[..n] == rules;
    }
  }

  // ---- against asking the system -----------------------------------------------------------------------

  /** What the system shows of a window; a text that it does not give is empty. */
  function Shown(f: WindowCache.Facts): RuleEngine.Window {
    RuleEngine.Window(TextOf(f, WindowCache.ProcessName), TextOf(f, WindowCache.WindowClass), TextOf(f, WindowCache.Title))
  }

  function TextOf(f: WindowCache.Facts, what: WindowCache.What): string {
    match WindowCache.Fresh(f, what) case Text(t) => t case _ => ""
  }

  /** The system gives all three texts. */
  predicate Answers(f: WindowCache.Facts) {
    forall k: FilterKey :: WindowCache.Fresh(f, Getter(k)).Text?
  }

  /** What the entry keeps of the three texts is in force. */
  predicate Current(e: WindowCache.Entry, f: WindowCache.Facts) {
    forall k: FilterKey :: WindowCache.Current(e, f, Getter(k))
  }

  /** Whatever is asked, an entry stays as current as it was. */
  ghost predicate AsCurrent(e: WindowCache.Entry, e': WindowCache.Entry, f: WindowCache.Facts) {
    forall what :: WindowCache.Current(e, f, what) <==> WindowCache.Current(e', f, what)
  }

  lemma {:induction false} AskMeansAllHold(e: WindowCache.Entry, f: WindowCache.Facts, condition: seq<RuleEngine.Predicate>)
    requires Current(e, f)
    ensures var (e', matched) := Ask(e, f, condition);
      && AsCurrent(e, e', f)
      && (matched.Some? ==> (matched.value <==> RuleEngine.AllHold(condition, Shown(f))))
      && (Answers(f) ==> matched.Some?)
    decreases |condition|
  {
    hide WindowCache.Fetch, WindowCache.Fresh, WindowCache.Current, RuleEngine.Matches;
    if condition != [] {
      var p := condition[0];
      var (e', a) := WindowCache.Fetch(e, f, Getter(p.field));
      WindowCache.FetchIsFreshExactly(e, f, Getter(p.field));
      AskMeansAllHold(e', f, condition[1..]);
      assert a.Text? ==> a.text == Shown(f).At(p.field);
      FirstHolds(condition, Shown(f));
    }
  }

  lemma FirstHolds(condition: seq<RuleEngine.Predicate>, w: RuleEngine.Window)
    requires condition != []
    ensures RuleEngine.AllHold(condition, w) <==> RuleEngine.Evaluate(condition[0], w) && RuleEngine.AllHold(condition[1..], w)
  {
    RuleEngine.AllHoldAppend([condition[0]], condition[1..], w);
    assert condition == [condition[0]] + condition[1..];
    assert RuleEngine.AllHold([condition[0]], w) <==> RuleEngine.Evaluate([condition[0]][0], w);
  }

  /** On a current entry, a check in which no getter throws runs what the rules give for the window
      that the system shows; none throws when the system gives all three texts. */
  lemma {:induction false} CheckMeansExecuted(
    e: WindowCache.Entry, f: WindowCache.Facts, rules: seq<RuleEngine.Rule>, trigger: Flag)
    requires Current(e, f)
    ensures var c := Check(e, f, rules, trigger);
      && AsCurrent(e, c.entry, f)
      && (!c.thrown ==> c.executed == RuleEngine.Executed(rules, Shown(f), trigger))
      && (Answers(f) ==> !c.thrown)
  {
    hide WindowCache.Current, RuleEngine.AllHold, RuleEngine.Executed, Ask, Shown, Answers;
    if rules == [] {
      NothingExecuted(Shown(f), trigger);
    } else {
      var n, r := |rules| - 1, rules[|rules| - 1];
      var before := Check(e, f, rules[..n], trigger);
      CheckMeansExecuted(e, f, rules[..n], trigger);
      AskMeansAllHold(before.entry, f, r.condition);
      RuleEngine.ExecutedAppend(rules[..n], r, Shown(f), trigger);
      assert rules == rules[..n] + [r];
      assert before.executed + [] == before.executed;
      var matched := Ask(before.entry, f, r.condition).1;
      if !before.thrown && trigger in r.triggers && matched.Some? {
        assert matched.value <==> RuleEngine.AllHold(r.condition, Shown(f));
      }
    }
  }

  lemma NothingExecuted(w: RuleEngine.Window, trigger: Flag)
    ensures RuleEngine.Executed([], w, trigger) == []
  {
  }

  // ---- histories ------------------------------------------------------------------------------------------

  /** The system moves on, an event is handled, or new settings arrive. */
  datatype Event = System(step: WindowCache.Step) | Settings(document: RuleEngine.Document)

  /** The program and its surroundings, with the operations that were run, in order. */
  datatype Live = Live(world: WindowCache.World, program: RuleEngine.Program, ran: seq<RuleEngine.Operation>)

  const FRESH := Live(WindowCache.START, RuleEngine.START, [])

  /** The trigger whose rules an event has checked, if any. */
  function TriggerOf(e: WindowCache.WinEvent): Option<Flag> {
    match e.kind
    case Foreground => Some(Triggers.WindowFocus)
    case Show => if WindowCache.Accepted(e) then Some(Triggers.WindowShow) else None
    case _ => None
  }

  /** The rules are checked for a window that has, or was given, an entry. */
  predicate Checks(w: WindowCache.World, step: WindowCache.Step) {
    step.Deliver? && TriggerOf(step.event).Some? && step.event.hwnd in WindowCache.Take(w, step).storage
  }

  /** Only a new window without memory for its entry escapes the check. */
  lemma ChecksExactly(w: WindowCache.World, e: WindowCache.WinEvent)
    ensures Checks(w, WindowCache.Deliver(e)) <==> TriggerOf(e).Some? && (e.hwnd in w.storage || e.memory)
  {
  }

  /** The program handles nothing after it has ended. */
  function Next(s: Live, e: Event): Live {
    if s.program.terminated then s
    else match e
      case Settings(d) => s.(program := RuleEngine.Install(s.program, d))
      case System(step) =>
        var w := WindowCache.Take(s.world, step);
        if !Checks(s.world, step) then s.(world := w)
        else
          var h := step.event.hwnd;
          var c := Check(w.storage[h], WindowCache.FactsOf(w, h), s.program.rules, TriggerOf(step.event).value);
          Live(w.(storage := w.storage[h := c.entry]), s.program.(terminated := c.thrown), s.ran + c.executed)
  }

  function Run(events: seq<Event>): Live {
    if events == [] then FRESH else Next(Run(events[..|events| - 1]), events[|events| - 1])
  }

  function Documents(events: seq<Event>): seq<RuleEngine.Document> {
    if events == [] then []
    else
      Documents(events[..|events| - 1])
      + (match events[|events| - 1] case Settings(d) => [d] case System(_) => [])
  }

  /** The document that decides after these events. */
  ghost function Deciding(events: seq<Event>): RuleEngine.Document {
    var ds := Documents(events);
    RuleEngine.InForce(ds[..RuleEngine.Survived(ds)])
  }

  /** A running program checks its rules at this event. */
  predicate ChecksAt(s: Live, e: Event) {
    !s.program.terminated && e.System? && Checks(s.world, e.step)
  }

  function FactsAt(s: Live, e: Event): WindowCache.Facts
    requires ChecksAt(s, e)
  {
    WindowCache.FactsOf(WindowCache.Take(s.world, e.step), e.step.event.hwnd)
  }

  /** The operations that asking the settings and the system directly at each check would give,
      without a cache and without a compiler. */
  ghost function Asked(events: seq<Event>): seq<RuleEngine.Operation> {
    if events == [] then []
    else
      var before, last := events[..|events| - 1], events[|events| - 1];
      var d := Deciding(before);
      Asked(before)
      + (if ChecksAt(Run(before), last) then
           RuleEngine.Direct(RuleEngine.Rules(d), d.env, Shown(FactsAt(Run(before), last)), TriggerOf(last.step.event).value)
         else [])
  }

  /** At each check no event is owed that one of the three texts depends on. */
  predicate Prompt(events: seq<Event>) {
    events == [] ||
    (var s, last := Run(events[..|events| - 1]), events[|events| - 1];
     && Prompt(events[..|events| - 1])
     && (ChecksAt(s, last) ==>
           forall k: FilterKey :: !WindowCache.Owed(WindowCache.Take(s.world, last.step), last.step.event.hwnd, Getter(k))))
  }

  /** At each check the system gives all three texts. */
  predicate Answering(events: seq<Event>) {
    events == [] ||
    (var s, last := Run(events[..|events| - 1]), events[|events| - 1];
     Answering(events[..|events| - 1]) && (ChecksAt(s, last) ==> Answers(FactsAt(s, last))))
  }

  lemma EntryReplaced(w: WindowCache.World, h: Handle, e: WindowCache.Entry)
    requires WindowCache.Inv(w) && h in w.storage && AsCurrent(w.storage[h], e, WindowCache.FactsOf(w, h))
    ensures WindowCache.Inv(w.(storage := w.storage[h := e]))
  {
    hide WindowCache.Current;
    var r := w.(storage := w.storage[h := e]);
    forall g, what | g in r.storage && !WindowCache.Owed(r, g, what)
      ensures WindowCache.Current(r.storage[g], WindowCache.FactsOf(r, g), what)
    {
      assert !WindowCache.Owed(w, g, what);
    }
  }

  lemma CheckedNext(s: Live, e: Event)
    requires WindowCache.Inv(s.world) && ChecksAt(s, e)
    requires forall k: FilterKey :: !WindowCache.Owed(WindowCache.Take(s.world, e.step), e.step.event.hwnd, Getter(k))
    ensures var r, f, t := Next(s, e), FactsAt(s, e), TriggerOf(e.step.event).value;
      && WindowCache.Inv(r.world)
      && r.program.rules == s.program.rules
      && (!r.program.terminated ==> r.ran == s.ran + RuleEngine.Executed(s.program.rules, Shown(f), t))
      && (Answers(f) ==> !r.program.terminated)
  {
    hide WindowCache.Take, WindowCache.Current, WindowCache.Fetch, Check, Shown, Answers;
    WindowCache.TakeKeepsInv(s.world, e.step);
    var w, h, f := WindowCache.Take(s.world, e.step), e.step.event.hwnd, FactsAt(s, e);
    assert Current(w.storage[h], f);
    CheckMeansExecuted(w.storage[h], f, s.program.rules, TriggerOf(e.step.event).value);
    var c := Check(w.storage[h], f, s.program.rules, TriggerOf(e.step.event).value);
    EntryReplaced(w, h, c.entry);
  }

  /** Every prompt history of settings, window events and changes of the system: as long as the
      program has not ended, it has run exactly the operations that the settings in force give for
      what the system shows, cache and compiler notwithstanding. If the system always answers, the
      program has ended exactly when the parse error of a document escaped, and it is exact
      up to then. */
  lemma {:induction false} RunsWhatSettingsSay(events: seq<Event>)
    requires Prompt(events)
    ensures var s := Run(events);
      && WindowCache.Inv(s.world)
      && (!s.program.terminated || Answering(events) ==>
            s.ran == Asked(events) && s.program == RuleEngine.InstallAll(Documents(events)))
      && (Answering(events) ==>
            (s.program.terminated <==> exists d :: d in Documents(events) && RuleEngine.Escapes(d)))
  {
    hide WindowCache.Inv, WindowCache.Take, WindowCache.Owed, Checks, RuleEngine.Direct, RuleEngine.InForce, RuleEngine.Install,
      RuleEngine.Escapes, Next, Answers, Shown;
    EndedExactly(Documents(events));
    if events == [] {
      StartIsSound();
    } else {
      var before, last := events[..|events| - 1], events[|events| - 1];
      RunsWhatSettingsSay(before);
      StepRunsWhatSettingsSay(events);
    }
  }

  lemma StartIsSound()
    ensures WindowCache.Inv(WindowCache.START)
  {
  }

  lemma EndedExactly(ds: seq<RuleEngine.Document>)
    ensures RuleEngine.InstallAll(ds).terminated <==> exists d :: d in ds && RuleEngine.Escapes(d)
  {
    hide RuleEngine.Escapes, RuleEngine.InForce, RuleEngine.InstallAll;
    RuleEngine.EngineFollowsLastInstallable(ds, RuleEngine.Window("", "", ""), Triggers.WindowFocus);
  }

  lemma DocumentsInstalled(events: seq<Event>)
    requires events != []
    ensures var before, last := events[..|events| - 1], events[|events| - 1];
      RuleEngine.InstallAll(Documents(events)) ==
        if last.Settings? then RuleEngine.Install(RuleEngine.InstallAll(Documents(before)), last.document)
        else RuleEngine.InstallAll(Documents(before))
  {
    hide RuleEngine.Install;
    var before, last := events[..|events| - 1], events[|events| - 1];
    if last.Settings? {
      assert Documents(events)[..|Documents(before)|] == Documents(before);
    } else {
      assert Documents(before) + [] == Documents(before);
    }
  }

  /** What a check runs is what the deciding document says. */
  lemma DecidingSays(events: seq<Event>, w: RuleEngine.Window, t: Flag)
    ensures RuleEngine.Executed(RuleEngine.InstallAll(Documents(events)).rules, w, t)
         == RuleEngine.Direct(RuleEngine.Rules(Deciding(events)), Deciding(events).env, w, t)
  {
    RuleEngine.EngineFollowsLastInstallable(Documents(events), w, t);
  }

  lemma StepRunsWhatSettingsSay(events: seq<Event>)
    requires events != [] && Prompt(events)
    requires WindowCache.Inv(Run(events[..|events| - 1]).world)
    ensures var before, s, r := events[..|events| - 1], Run(events[..|events| - 1]), Run(events);
      && WindowCache.Inv(r.world)
      && (s.ran == Asked(before) && s.program == RuleEngine.InstallAll(Documents(before)) && (!r.program.terminated || Answering(events)) ==>
            r.ran == Asked(events) && r.program == RuleEngine.InstallAll(Documents(events)))
      && (s.program.terminated ==> r.program.terminated)
  {
    hide WindowCache.Inv, WindowCache.Take, Check, RuleEngine.Direct, RuleEngine.Executed, RuleEngine.InstallAll, RuleEngine.Install,
      RuleEngine.Rules, Documents, Deciding, Answers, Shown, FactsAt, Next;
    var before, last := events[..|events| - 1], events[|events| - 1];
    var s := Run(before);
    DocumentsInstalled(events);
    NextMeaning(s, last);
    if ChecksAt(s, last) {
      CheckedNext(s, last);
      DecidingSays(before, Shown(FactsAt(s, last)), TriggerOf(last.step.event).value);
    }
    assert Asked(before) + [] == Asked(before);
  }

  lemma NextMeaning(s: Live, e: Event)
    requires WindowCache.Inv(s.world)
    ensures var r := Next(s, e);
      && (s.program.terminated ==> r == s)
      && (!s.program.terminated && e.Settings? ==> r == s.(program := RuleEngine.Install(s.program, e.document)))
      && (!ChecksAt(s, e) ==> WindowCache.Inv(r.world) && r.ran == s.ran && (e.System? ==> r.program == s.program))
      && (s.program.terminated && e.Settings? ==> RuleEngine.Install(s.program, e.document) == s.program)
  {
    hide WindowCache.Inv, Checks, Check, WindowCache.Take;
    if e.System? {
      WindowCache.TakeKeepsInv(s.world, e.step);
    }
  }

  // ---- which event checks which rules ----------------------------------------------------------------

  /** What the settings in force give for a window and a trigger. */
  ghost function Given(events: seq<Event>, h: Handle, t: Flag): seq<RuleEngine.Operation> {
    var d := Deciding(events);
    RuleEngine.Direct(RuleEngine.Rules(d), d.env, Shown(WindowCache.FactsOf(Run(events).world, h)), t)
  }

  /** After any prompt history: a foreground event adds what the settings give for a window in
      focus; a show event of a root window itself adds what they give for a window shown; no other
      event, change or reading adds anything. */
  lemma EventAdds(events: seq<Event>, e: Event)
    requires Prompt(events + [e]) && !Run(events + [e]).program.terminated
    ensures var s, r := Run(events), Run(events + [e]);
      r.ran == s.ran +
        if e.System? && e.step.Deliver? && (e.step.event.hwnd in s.world.storage || e.step.event.memory) then
          var w := e.step.event;
          if w.kind == WindowCache.Foreground then Given(events, w.hwnd, Triggers.WindowFocus)
          else if w.kind == WindowCache.Show && w.isWindow && w.isSelf && w.isRoot then Given(events, w.hwnd, Triggers.WindowShow)
          else []
        else []
  {
    var s := Run(events);
    OneMore(events, e);
    RunsWhatSettingsSay(events + [e]);
    RunsWhatSettingsSay(events);
    hide Run, Asked, Prompt, Answering, Deciding, Documents, Shown, Answers, Next, Check, RuleEngine.Direct, RuleEngine.InstallAll,
      RuleEngine.Rules, RuleEngine.Escapes, WindowCache.Take, WindowCache.Inv, WindowCache.FactsOf;
    if e.System? && e.step.Deliver? {
      ChecksExactly(s.world, e.step.event);
      DeliveryKeepsFacts(s.world, e.step.event);
    }
    assert Asked(events) + [] == Asked(events);
  }

  lemma OneMore(events: seq<Event>, e: Event)
    ensures var s, r := Run(events), Run(events + [e]);
      && (s.program.terminated ==> r.program.terminated)
      && (Prompt(events + [e]) ==> Prompt(events))
      && Asked(events + [e]) == Asked(events) +
           if ChecksAt(s, e) then
             RuleEngine.Direct(
               RuleEngine.Rules(Deciding(events)), Deciding(events).env, Shown(FactsAt(s, e)), TriggerOf(e.step.event).value)
           else []
  {
    assert (events + [e])[..|events|] == events;
    hide Deciding, Shown, Check, Checks, RuleEngine.Direct, RuleEngine.Rules, WindowCache.Take;
  }

  lemma DeliveryKeepsFacts(w: WindowCache.World, e: WindowCache.WinEvent)
    ensures WindowCache.FactsOf(WindowCache.Take(w, WindowCache.Deliver(e)), e.hwnd) == WindowCache.FactsOf(w, e.hwnd)
  {
  }

  lemma {:induction false} NoneForOtherTriggers(
    rules: seq<RuleEngine.SettingsRule>, env: RuleEngine.Environment, w: RuleEngine.Window, t: Flag)
    requires forall i :: 0 <= i < |rules| ==> t !in rules[i].triggers
    ensures RuleEngine.Direct(rules, env, w, t) == []
  {
    if rules != [] {
      NoneForOtherTriggers(rules[1..], env, w, t);
    }
  }

  /** Rules in force that lack "show" are not run by a window that is shown, and rules that lack
      "focus" not by one that comes to the front. */
  lemma OtherTriggersAddNothing(events: seq<Event>, e: WindowCache.WinEvent)
    requires Prompt(events + [System(WindowCache.Deliver(e))])
    requires !Run(events + [System(WindowCache.Deliver(e))]).program.terminated
    requires var rules := RuleEngine.Rules(Deciding(events));
      forall i :: 0 <= i < |rules| ==>
        && (e.kind == WindowCache.Show ==> Triggers.WindowShow !in rules[i].triggers)
        && (e.kind == WindowCache.Foreground ==> Triggers.WindowFocus !in rules[i].triggers)
    ensures Run(events + [System(WindowCache.Deliver(e))]).ran == Run(events).ran
  {
    EventAdds(events, System(WindowCache.Deliver(e)));
    hide Run, Deciding, Prompt, RuleEngine.Rules;
    var d, shown := Deciding(events), Shown(WindowCache.FactsOf(Run(events).world, e.hwnd));
    if e.kind == WindowCache.Show {
      NoneForOtherTriggers(RuleEngine.Rules(d), d.env, shown, Triggers.WindowShow);
    } else if e.kind == WindowCache.Foreground {
      NoneForOtherTriggers(RuleEngine.Rules(d), d.env, shown, Triggers.WindowFocus);
    }
  }

  /** The rule's only trigger is the start of the application. */
  predicate OnlyInit(triggers: set<Flag>) {
    triggers <= {Triggers.ApplicationStart}
  }

  ghost predicate OnlyInitSettings(ds: seq<RuleEngine.Document>) {
    forall d, i :: d in ds && 0 <= i < |RuleEngine.Rules(d)| ==> OnlyInit(RuleEngine.Rules(d)[i].triggers)
  }

  lemma {:induction false} CompiledOnlyInit(rules: seq<RuleEngine.SettingsRule>, env: RuleEngine.Environment)
    requires forall i :: 0 <= i < |rules| ==> OnlyInit(rules[i].triggers)
    ensures var o := RuleEngine.CompileRules(rules, env);
      o.Compiled? ==> forall i :: 0 <= i < |o.rules| ==> OnlyInit(o.rules[i].triggers)
  {
    hide OnlyInit, RuleEngine.Resolve, RuleEngine.Unreadable, RuleEngine.Condition;
    if rules != [] {
      CompiledOnlyInit(rules[..|rules| - 1], env);
    }
  }

  lemma {:induction false} CheckOfOnlyInit(
    e: WindowCache.Entry, f: WindowCache.Facts, rules: seq<RuleEngine.Rule>, trigger: Flag)
    requires trigger != Triggers.ApplicationStart && forall i :: 0 <= i < |rules| ==> OnlyInit(rules[i].triggers)
    ensures Check(e, f, rules, trigger) == Checked(e, [], false)
  {
    if rules != [] {
      CheckOfOnlyInit(e, f, rules[..|rules| - 1], trigger);
    }
  }

  /** No event checks the trigger for the start of the application: if it is the only trigger of
      every rule, nothing is ever run, whatever happens. */
  lemma {:induction false} InitRulesNeverRun(events: seq<Event>)
    requires OnlyInitSettings(Documents(events))
    ensures var s := Run(events);
      s.ran == [] && forall i :: 0 <= i < |s.program.rules| ==> OnlyInit(s.program.rules[i].triggers)
  {
    hide OnlyInit, Check, WindowCache.Take, RuleEngine.CompileRules;
    if events != [] {
      var before, last := events[..|events| - 1], events[|events| - 1];
      assert forall d :: d in Documents(before) ==> d in Documents(events);
      InitRulesNeverRun(before);
      var s := Run(before);
      match last {
        case Settings(d) =>
          assert d in Documents(events);
          CompiledOnlyInit(RuleEngine.Rules(d), d.env);
        case System(step) =>
          if ChecksAt(s, last) {
            var w := WindowCache.Take(s.world, step);
            CheckOfOnlyInit(w.storage[step.event.hwnd], FactsAt(s, last), s.program.rules, TriggerOf(step.event).value);
          }
      }
    }
  }
}
