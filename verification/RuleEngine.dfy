/** Compiling settings into predicate lists and operations, and running them. */
module RuleEngine {
  import opened Wrappers
  import opened MatchPattern
  import opened SettingsTree
  import Triggers
  import ActionSettings

  type Flag = Triggers.Flag

  // ---- settings, as read -----------------------------------------------------------------

  /** A rule as its settings objects show it: the flags, the filter's cached patterns, and the
      action, of which a detail object is made only when the rule is compiled. */
  datatype SettingsRule = SettingsRule(triggers: set<Flag>, filter: FilterState, action: ActionSettings.Doc)

  /** How numbers are scanned, and which monitor a number chooses at the time. */
  datatype Environment = Environment(codec: ActionSettings.Codec, monitors: int -> Option<nat>)

  /** What a window shows when it is asked. */
  datatype Window = Window(process: string, windowClass: string, title: string) {
    function At(k: FilterKey): string {
      match k case ProcessName => process case WindowClass => windowClass case WindowTitle => title
    }
  }

  // ---- compiled rules ----------------------------------------------------------------------

  datatype Operation =
    | AbsoluteMove(bounds: ActionSettings.Bounds<int>)
    | RelativeMove(monitor: nat, fractions: ActionSettings.Bounds<real>)

  datatype Predicate = Predicate(field: FilterKey, kind: MatchType, data: string)

  /** The capacity of a predicate set. */
  const CAPACITY := 2

  datatype Rule = Rule(triggers: set<Flag>, operation: Operation, condition: seq<Predicate>)

  predicate Occurs(text: string, part: string) {
    part <= text || (text != [] && Occurs(text[1..], part))
  }

  predicate Matches(p: Pattern, text: string) {
    match p.kind
    case Equals => text == p.value
    case Contains => Occurs(text, p.value)
    case StartsWith => p.value <= text
    case EndsWith => |p.value| <= |text| && text[|text| - |p.value|..] == p.value
  }

  /** What a pattern says about a text, in terms of concatenation. */
  ghost predicate Says(p: Pattern, text: string) {
    match p.kind
    case Equals => text == p.value
    case Contains => exists front: string, back: string :: text == front + p.value + back
    case StartsWith => exists back: string :: text == p.value + back
    case EndsWith => exists front: string :: text == front + p.value
  }

  lemma {:induction false} OccursMeaning(text: string, part: string)
    ensures Occurs(text, part) <==> exists front: string, back: string :: text == front + part + back
  {
    if part <= text {
      assert text == "" + part + text[|part|..];
    } else if text != [] {
      OccursMeaning(text[1..], part);
      if Occurs(text[1..], part) {
        var front: string, back: string :| text[1..] == front + part + back;
        assert text == ([text[0]] + front) + part + back;
      }
      if front: string, back: string :| text == front + part + back {
        OccursLater(text, front, part, back);
      }
    }
  }

  lemma OccursLater(text: string, front: string, part: string, back: string)
    requires text != [] && text == front + part + back
    ensures part <= text || (front != [] && text[1..] == front[1..] + part + back)
  {
    if front == [] {
      assert text == part + back;
    }
  }

  /** The four functions that evaluate a predicate compute what the patterns say. */
  lemma MatchesMeaning(p: Pattern, text: string)
    ensures Matches(p, text) <==> Says(p, text)
  {
    match p.kind
    case Equals =>
    case Contains => OccursMeaning(text, p.value);
    case StartsWith =>
      if p.value <= text {
        assert text == p.value + text[|p.value|..];
      }
    case EndsWith =>
      var n := |text| - |p.value|;
      if Matches(p, text) {
        assert text == text[..n] + p.value;
      }
      if front: string :| text == front + p.value {
        assert |front| == n && text[n..] == p.value;
      }
  }

  predicate Evaluate(p: Predicate, w: Window) {
    Matches(Pattern(p.kind, p.data), w.At(p.field))
  }

  // ---- what the settings mean -----------------------------------------------------------------

  /** A condition on the process name with an empty value is no condition; the others are
      what they say. */
  ghost predicate Accepts(f: FilterState, w: Window) {
    && (f.process.value == "" || Says(f.process, w.process))
    && Says(f.windowClass, w.windowClass)
    && Says(f.title, w.title)
  }

  /** Making the detail object of an action raises a parse error. */
  predicate Unreadable(a: ActionSettings.Doc, env: Environment) {
    a.kind != ActionSettings.Invalid && ActionSettings.Open(env.codec, a).detail.NoDetail?
  }

  /** The operation of an action, if it has a type and its monitor is known. */
  function Resolve(a: ActionSettings.Doc, env: Environment): Option<Operation> {
    match ActionSettings.Open(env.codec, a).detail
    case NoDetail => None
    case Absolute(b) => Some(AbsoluteMove(b))
    case Relative(id, _, b) => if env.monitors(id).Some? then Some(RelativeMove(env.monitors(id).value, b)) else None
  }

  /** Making the detail object fails exactly when a field of its type is not a number in range or,
      for the monitor name, is a container. */
  lemma UnreadableExactly(a: ActionSettings.Doc, env: Environment)
    ensures Unreadable(a, env) <==>
      match a.kind
      case Invalid => false
      case AbsoluteMoveAndResize =>
        exists x :: ReadNumber(ActionSettings.AbsoluteField(env.codec, x), a.children).None?
      case RelativeMoveAndResize =>
        || ReadNumber(ActionSettings.IdField(env.codec), a.children).None?
        || (Get(a.children, ActionSettings.MONITOR_NAME).Some? && Get(a.children, ActionSettings.MONITOR_NAME).value.Container?)
        || exists x :: ReadNumber(ActionSettings.RelativeField(env.codec, x), a.children).None?
  {
    hide ReadNumber;
  }

  /** The operation of a readable action, in terms of its node: there is none exactly without a type
      or for an unknown monitor; otherwise its bounds are the numbers that stand there, and its
      monitor is that of the number that stands there. */
  lemma ResolveMeaning(a: ActionSettings.Doc, env: Environment)
    requires !Unreadable(a, env)
    ensures a.kind == ActionSettings.Invalid ==> Resolve(a, env).None?
    ensures a.kind == ActionSettings.AbsoluteMoveAndResize ==>
      && Resolve(a, env).Some? && Resolve(a, env).value.AbsoluteMove?
      && forall x :: ReadNumber(ActionSettings.AbsoluteField(env.codec, x), a.children) == Some(Resolve(a, env).value.bounds.At(x))
    ensures a.kind == ActionSettings.RelativeMoveAndResize ==>
      var id := ReadNumber(ActionSettings.IdField(env.codec), a.children);
      && id.Some?
      && (Resolve(a, env).None? <==> env.monitors(id.value).None?)
      && (Resolve(a, env).Some? ==>
            && Resolve(a, env).value.RelativeMove?
            && env.monitors(id.value) == Some(Resolve(a, env).value.monitor)
            && forall x ::
                 ReadNumber(ActionSettings.RelativeField(env.codec, x), a.children) == Some(Resolve(a, env).value.fractions.At(x)))
  {
    hide ReadNumber;
  }

  /** The operations that reading the settings directly gives for a window, in rule order. */
  ghost function Direct(rules: seq<SettingsRule>, env: Environment, w: Window, trigger: Flag): seq<Operation> {
    if rules == [] then []
    else
      var r := rules[0];
      var op := Resolve(r.action, env);
      (if trigger in r.triggers && op.Some? && Accepts(r.filter, w) then [op.value] else [])
      + Direct(rules[1..], env, w, trigger)
  }

  // ---- the compiler ---------------------------------------------------------------------------

  /** Which fields become predicates. */
  predicate Active(f: FilterState, field: FilterKey) {
    f.Live(field).value != "" || (field != ProcessName && f.Live(field).kind == Equals)
  }

  function PredicateOf(f: FilterState, field: FilterKey): seq<Predicate> {
    if Active(f, field) then [Predicate(field, f.Live(field).kind, f.Live(field).value)] else []
  }

  function Condition(f: FilterState): seq<Predicate> {
    PredicateOf(f, ProcessName) + PredicateOf(f, WindowClass) + PredicateOf(f, WindowTitle)
  }

  /** Appends to a vector of bounded capacity; overflow raises the allocation error, shown as None. */
  method CompileFilter(f: FilterState) returns (condition: Option<seq<Predicate>>)
    ensures condition == if |Condition(f)| <= CAPACITY then Some(Condition(f)) else None
  {
    var collected: seq<Predicate> := [];
    if Active(f, ProcessName) {
      collected := collected + PredicateOf(f, ProcessName);
    }
    if Active(f, WindowClass) {
      collected := collected + PredicateOf(f, WindowClass);
    }
    assert collected == PredicateOf(f, ProcessName) + PredicateOf(f, WindowClass);
    if Active(f, WindowTitle) {
      if |collected| == CAPACITY {
        return None;
      }
      collected := collected + PredicateOf(f, WindowTitle);
    }
    assert collected == Condition(f);
    condition := Some(collected);
  }

  datatype Outcome = Compiled(rules: seq<Rule>) | OutOfMemory | Escaped

  function CompileRules(rules: seq<SettingsRule>, env: Environment): Outcome {
    if rules == [] then Compiled([])
    else
      var before := CompileRules(rules[..|rules| - 1], env);
      if !before.Compiled? then before
      else
        var r := rules[|rules| - 1];
        var op := Resolve(r.action, env);
        if Unreadable(r.action, env) then Escaped
        else if op.None? then before
        else if |Condition(r.filter)| > CAPACITY then OutOfMemory
        else Compiled(before.rules + [Rule(r.triggers, op.value, Condition(r.filter))])
  }

  /** The loop that appends to a local vector of rules. */
  method CompileRule(rules: seq<SettingsRule>, env: Environment) returns (o: Outcome)
    ensures o == CompileRules(rules, env)
  {
    var compiled: seq<Rule> := [];
    for i := 0 to |rules|
      invariant CompileRules(rules[..i], env) == Compiled(compiled)
    {
      assert rules[..i + 1][..i] == rules[..i];
      var r := rules[i];
      if Unreadable(r.action, env) {
        StaysFailed(rules, env, i + 1);
        return Escaped;
      }
      var op := Resolve(r.action, env);
      if op.Some? {
        var condition := CompileFilter(r.filter);
        if condition.None? {
          StaysFailed(rules, env, i + 1);
          return OutOfMemory;
        }
        compiled := compiled + [Rule(r.triggers, op.value, condition.value)];
      }
    }
    assert rules[..|rules|] == rules;
    o := Compiled(compiled);
  }

  lemma {:induction false} StaysFailed(rules: seq<SettingsRule>, env: Environment, n: nat)
    requires n <= |rules| && !CompileRules(rules[..n], env).Compiled?
    ensures CompileRules(rules, env) == CompileRules(rules[..n], env)
    decreases |rules| - n
  {
    if n < |rules| {
      assert rules[..n + 1][..n] == rules[..n];
      StaysFailed(rules, env, n + 1);
    } else {
      assert rules[..n] == rules;
    }
  }

  // ---- the compiler is right --------------------------------------------------------------------

  /** An empty value of any kind but equals matches every text. */
  lemma EmptyIsTautology(kind: MatchType, text: string)
    requires kind != Equals
    ensures Matches(Pattern(kind, ""), text)
  {
    assert text[|text| - |""|..] == "";
  }

  predicate AllHold(condition: seq<Predicate>, w: Window) {
    forall i :: 0 <= i < |condition| ==> Evaluate(condition[i], w)
  }

  lemma AllHoldAppend(a: seq<Predicate>, b: seq<Predicate>, w: Window)
    ensures AllHold(a + b, w) <==> AllHold(a, w) && AllHold(b, w)
  {
    if AllHold(a + b, w) {
      assert forall i :: 0 <= i < |a| ==> a[i] == (a + b)[i];
      assert forall i :: 0 <= i < |b| ==> b[i] == (a + b)[|a| + i];
    }
  }

  lemma FieldPredicate(f: FilterState, field: FilterKey, w: Window)
    ensures AllHold(PredicateOf(f, field), w) <==>
      (field == ProcessName && f.process.value == "") || Says(f.Live(field), w.At(field))
  {
    var p := f.Live(field);
    MatchesMeaning(p, w.At(field));
    hide Says, Matches;
    if Active(f, field) {
      assert Pattern(p.kind, p.value) == p;
      assert AllHold(PredicateOf(f, field), w) <==> Evaluate(PredicateOf(f, field)[0], w);
    } else if field != ProcessName {
      EmptyIsTautology(p.kind, w.At(field));
      assert p == Pattern(p.kind, "");
    }
  }

  /** The compiled condition holds exactly when the filter accepts the window. */
  lemma ConditionMeansFilter(f: FilterState, w: Window)
    ensures AllHold(Condition(f), w) <==> Accepts(f, w)
  {
    AllHoldAppend(PredicateOf(f, ProcessName) + PredicateOf(f, WindowClass), PredicateOf(f, WindowTitle), w);
    AllHoldAppend(PredicateOf(f, ProcessName), PredicateOf(f, WindowClass), w);
    FieldPredicate(f, ProcessName, w);
    FieldPredicate(f, WindowClass, w);
    FieldPredicate(f, WindowTitle, w);
  }

  /** The operations that a compiled set runs. */
  function Executed(rules: seq<Rule>, w: Window, trigger: Flag): seq<Operation> {
    if rules == [] then []
    else
      Executed(rules[..|rules| - 1], w, trigger)
      + (var r := rules[|rules| - 1]; if trigger in r.triggers && AllHold(r.condition, w) then [r.operation] else [])
  }

  lemma {:induction false} DirectAppend(a: seq<SettingsRule>, b: seq<SettingsRule>, env: Environment, w: Window, t: Flag)
    ensures Direct(a + b, env, w, t) == Direct(a, env, w, t) + Direct(b, env, w, t)
  {
    if a == [] {
      assert a + b == b;
    } else {
      assert (a + b)[1..] == a[1..] + b;
      DirectAppend(a[1..], b, env, w, t);
    }
  }

  /** Running the compiled rules does exactly what reading the settings says, in order. */
  lemma {:induction false} CompiledRulesMeanSettings(rules: seq<SettingsRule>, env: Environment, w: Window, t: Flag)
    requires CompileRules(rules, env).Compiled?
    ensures Executed(CompileRules(rules, env).rules, w, t) == Direct(rules, env, w, t)
  {
    hide AllHold, Accepts, Condition, Direct, Executed, Resolve;
    if rules == [] {
      NothingMeansNothing(env, w, t);
    } else {
      var before, r := rules[..|rules| - 1], rules[|rules| - 1];
      var compiled := CompileRules(before, env);
      CompiledRulesMeanSettings(before, env, w, t);
      assert rules == before + [r];
      DirectAppend(before, [r], env, w, t);
      DirectOne(r, env, w, t);
      if Resolve(r.action, env).Some? {
        ExecutedAppend(compiled.rules, Rule(r.triggers, Resolve(r.action, env).value, Condition(r.filter)), w, t);
      } else {
        assert Direct(before, env, w, t) + [] == Direct(before, env, w, t);
      }
    }
  }

  lemma NothingMeansNothing(env: Environment, w: Window, t: Flag)
    ensures Direct([], env, w, t) == [] && Executed([], w, t) == []
  {
  }

  lemma DirectOne(r: SettingsRule, env: Environment, w: Window, t: Flag)
    ensures Direct([r], env, w, t) ==
      if Resolve(r.action, env).Some? && t in r.triggers && AllHold(Condition(r.filter), w)
      then [Resolve(r.action, env).value] else []
  {
    hide AllHold, Accepts, Condition, Resolve;
    ConditionMeansFilter(r.filter, w);
    assert [r][1..] == [];
    NothingMeansNothing(env, w, t);
  }

  lemma ExecutedAppend(rules: seq<Rule>, r: Rule, w: Window, t: Flag)
    ensures Executed(rules + [r], w, t)
         == Executed(rules, w, t) + (if t in r.triggers && AllHold(r.condition, w) then [r.operation] else [])
  {
    hide AllHold;
    assert (rules + [r])[..|rules|] == rules;
  }

  /** A rule that the compiler takes or skips without an error. */
  predicate Compilable(r: SettingsRule, env: Environment) {
    && !Unreadable(r.action, env)
    && (Resolve(r.action, env).Some? ==> |Condition(r.filter)| <= CAPACITY)
  }

  /** Compilation succeeds exactly when every rule is compilable; otherwise the first
      rule that is not decides between the two errors. */
  lemma {:induction false} CompilesExactly(rules: seq<SettingsRule>, env: Environment)
    ensures var o := CompileRules(rules, env);
      && (o.Compiled? <==> forall i :: 0 <= i < |rules| ==> Compilable(rules[i], env))
      && (o.Escaped? <==> exists i :: FirstBad(rules, env, i) && Unreadable(rules[i].action, env))
      && (o.OutOfMemory? <==> exists i :: FirstBad(rules, env, i) && !Unreadable(rules[i].action, env))
  {
    hide Resolve, Condition, Unreadable;
    if rules != [] {
      var n := |rules| - 1;
      CompilesExactly(rules[..n], env);
      forall i
        ensures i < n ==> (FirstBad(rules[..n], env, i) <==> FirstBad(rules, env, i))
      {
      }
      if CompileRules(rules[..n], env).Compiled? && !Compilable(rules[n], env) {
        assert FirstBad(rules, env, n);
      }
    }
  }

  predicate FirstBad(rules: seq<SettingsRule>, env: Environment, i: int) {
    && 0 <= i < |rules|
    && !Compilable(rules[i], env)
    && forall j :: 0 <= j < i ==> Compilable(rules[j], env)
  }

  /** Three active fields are exactly too many. */
  lemma CapacityMeansTwoFields(f: FilterState)
    ensures |Condition(f)| <= CAPACITY <==> exists field :: !Active(f, field)
  {
    if forall field :: Active(f, field) {
      assert Active(f, ProcessName) && Active(f, WindowClass) && Active(f, WindowTitle);
    }
  }

  // ---- the engine -----------------------------------------------------------------------------------

  /** A settings document: no root, or its rules; with the env known at that time. */
  datatype Document = Document(root: Option<seq<SettingsRule>>, env: Environment)

  const NOTHING := Environment(ActionSettings.Codec(_ => "", _ => None, _ => "", _ => None), _ => None)

  function Rules(d: Document): seq<SettingsRule> {
    if d.root.Some? then d.root.value else []
  }

  /** The rules in force, and whether an escaped error has ended the program. */
  datatype Program = Program(rules: seq<Rule>, terminated: bool)

  const START := Program([], false)

  function Install(p: Program, d: Document): Program {
    if p.terminated then p
    else match CompileRules(Rules(d), d.env)
      case Compiled(rules) => Program(rules, false)
      case OutOfMemory => p
      case Escaped => p.(terminated := true)
  }

  ghost predicate Installable(d: Document) {
    CompileRules(Rules(d), d.env).Compiled?
  }

  ghost predicate Escapes(d: Document) {
    CompileRules(Rules(d), d.env).Escaped?
  }

  class Engine {
    var hasContext: bool
    var ruleSet: seq<Rule>
    var terminated: bool

    ghost function Abs(): Program
      reads this
    {
      Program(ruleSet, terminated)
    }

    constructor ()
      ensures !hasContext && Abs() == START
    {
      hasContext, ruleSet, terminated := false, [], false;
    }

    /** A parse error escapes from a function that may not throw; nothing is handled after that. */
    method OnSettingsChanged(d: Document)
      modifies this
      ensures hasContext == old(hasContext)
      ensures Abs() == if hasContext then Install(old(Abs()), d) else old(Abs())
    {
      if terminated || !hasContext {
        return;
      }
      var o := Compiled([]);
      if d.root.Some? {
        o := CompileRule(d.root.value, d.env);
      }
      match o {
        case Compiled(rules) => ruleSet := rules;
        case OutOfMemory =>
        case Escaped => terminated := true;
      }
    }

    /** Runs the operation of every rule whose trigger and whole condition match. */
    method CheckRules(w: Window, trigger: Flag) returns (executed: seq<Operation>)
      ensures executed == if hasContext && !terminated then Executed(ruleSet, w, trigger) else []
    {
      executed := [];
      if terminated || !hasContext {
        return;
      }
      for i := 0 to |ruleSet|
        invariant executed == Executed(ruleSet[..i], w, trigger)
      {
        assert ruleSet[..i + 1][..i] == ruleSet[..i];
        var rule := ruleSet[i];
        if trigger !in rule.triggers {
          continue;
        }
        var matched := true;
        for j := 0 to |rule.condition|
          invariant matched <==> AllHold(rule.condition[..j], w)
        {
          if !Evaluate(rule.condition[j], w) {
            matched := false;
            assert !AllHold(rule.condition, w);
            break;
          }
          assert AllHold(rule.condition[..j + 1], w) <==> AllHold(rule.condition[..j], w);
        }
        assert matched ==> rule.condition[..|rule.condition|] == rule.condition;
        assert matched <==> AllHold(rule.condition, w);
        if matched {
          executed := executed + [rule.operation];
        }
      }
      assert ruleSet[..|ruleSet|] == ruleSet;
    }
  }

  // ---- histories ---------------------------------------------------------------------------------------

  function InstallAll(documents: seq<Document>): Program {
    if documents == [] then START else Install(InstallAll(documents[..|documents| - 1]), documents[|documents| - 1])
  }

  /** The documents before the first whose parse error escapes. */
  ghost function Survived(documents: seq<Document>): (n: nat)
    ensures n <= |documents|
    ensures n < |documents| ==> Escapes(documents[n])
    ensures forall i :: 0 <= i < n ==> !Escapes(documents[i])
  {
    if documents == [] then 0
    else
      var last := |documents| - 1;
      var n := Survived(documents[..last]);
      if n == last && !Escapes(documents[last]) then n + 1 else n
  }

  /** The last document of a history that could be installed, or an empty one. */
  ghost function InForce(documents: seq<Document>): Document {
    if documents == [] then Document(None, NOTHING)
    else if Installable(documents[|documents| - 1]) then documents[|documents| - 1]
    else InForce(documents[..|documents| - 1])
  }

  /** Whatever settings came and went: the program has ended exactly when the parse error of some
      document escaped, and the engine acts as the last installable document before that says. */
  lemma {:induction false} EngineFollowsLastInstallable(documents: seq<Document>, w: Window, trigger: Flag)
    ensures var p, d := InstallAll(documents), InForce(documents[..Survived(documents)]);
      && (p.terminated <==> exists i :: 0 <= i < |documents| && Escapes(documents[i]))
      && Installable(d)
      && Executed(p.rules, w, trigger) == Direct(Rules(d), d.env, w, trigger)
      && p.rules == CompileRules(Rules(d), d.env).rules
  {
    hide Executed, Direct, CompileRules;
    InstallFollows(documents);
    var n := Survived(documents);
    assert n < |documents| ==> Escapes(documents[n]);
    var d := InForce(documents[..n]);
    CompiledRulesMeanSettings(Rules(d), d.env, w, trigger);
  }

  lemma {:induction false} InstallFollows(documents: seq<Document>)
    ensures var p, n := InstallAll(documents), Survived(documents);
      var d := InForce(documents[..n]);
      && (p.terminated <==> n < |documents|)
      && Installable(d) && p.rules == CompileRules(Rules(d), d.env).rules
  {
    if documents != [] {
      var before, last := documents[..|documents| - 1], documents[|documents| - 1];
      InstallFollows(before);
      var n := Survived(before);
      assert before[..n] == documents[..n];
      if n == |before| && !Escapes(last) {
        assert documents[..n + 1] == documents;
      }
    }
  }

  /** A document whose first rule that cannot be compiled has three active fields runs out of
      memory: the program goes on with the old rules. If that rule is unreadable instead, the
      error escapes and ends the program. */
  lemma OverfullRuleKeepsOldSet(documents: seq<Document>, d: Document, i: nat)
    requires i < |Rules(d)| && Resolve(Rules(d)[i].action, d.env).Some?
    requires forall field :: Active(Rules(d)[i].filter, field)
    ensures var o := CompileRules(Rules(d), d.env);
      && !o.Compiled?
      && InstallAll(documents + [d]).rules == InstallAll(documents).rules
      && (InstallAll(documents + [d]).terminated <==> InstallAll(documents).terminated || o.Escaped?)
      && ((forall j :: 0 <= j < i ==> !Unreadable(Rules(d)[j].action, d.env)) ==> o.OutOfMemory?)
      && (o.Escaped? <==> exists j :: FirstBad(Rules(d), d.env, j) && j < i && Unreadable(Rules(d)[j].action, d.env))
  {
    CapacityMeansTwoFields(Rules(d)[i].filter);
    CompilesExactly(Rules(d), d.env);
    hide Active, Condition, Resolve;
    assert !Unreadable(Rules(d)[i].action, d.env) && !Compilable(Rules(d)[i], d.env);
    assert (documents + [d])[..|documents|] == documents;
    var j := FirstBadBelow(Rules(d), d.env, i);
  }

  /** There is a first rule that cannot be compiled, if there is one. */
  lemma {:induction false} FirstBadBelow(rules: seq<SettingsRule>, env: Environment, i: nat) returns (j: nat)
    requires i < |rules| && !Compilable(rules[i], env)
    ensures j <= i && FirstBad(rules, env, j)
    decreases i
  {
    if k :| 0 <= k < i && !Compilable(rules[k], env) {
      j := FirstBadBelow(rules, env, k);
    } else {
      j := i;
    }
  }
}
