/** From the rule editor through the document and the compiler to the engine. */
module SavedRules {
  import opened Wrappers
  import opened MatchPattern
  import opened SettingsTree
  import ActionSettings
  import RuleEditor
  import RuleEngine
  import Triggers

  type Flag = Triggers.Flag

  /** The nodes of one rule: its own keys, and the children of its filter and of its action. */
  datatype RuleNode = RuleNode(rule: Triggers.MapNode, filter: Children, action: Children)

  /** Reading a filter from its node; None stands for the parse error. */
  function ReadFilter(c: Children): Option<FilterState> {
    var p, k, t := ReadPatternAt(Get(c, KeyText(ProcessName))), ReadPatternAt(Get(c, KeyText(WindowClass))),
      ReadPatternAt(Get(c, KeyText(WindowTitle)));
    if p.Some? && k.Some? && t.Some? then Some(FilterState(c, p.value, k.value, t.value)) else None
  }

  /** Reading a rule from its nodes; None stands for the parse errors of the rule itself, of its
      filter and of its action. */
  function ReadRule(n: RuleNode): Option<RuleEngine.SettingsRule> {
    var t, f, a := Triggers.ReadTriggers(n.rule), ReadFilter(n.filter), ActionSettings.ReadType(n.action);
    if Triggers.Parses(n.rule) && f.Some? && a.Some? then
      Some(RuleEngine.SettingsRule(t.flags, f.value, ActionSettings.Doc(n.action, a.value, ActionSettings.NoDetail)))
    else None
  }

  /** The constructors of the three objects; None stands for the first parse error. */
  method MakeRule(rule: Triggers.MapNode, where: SettingsNode, action: SettingsNode)
    returns (r: Option<(Triggers.Rule, Filter, ActionSettings.Action)>)
    requires DistinctKeys(where.children)
    ensures var read := ReadRule(RuleNode(rule, where.children, action.children));
      && (r.None? <==> read.None?)
      && (r.Some? ==>
            var (x, f, a) := r.value;
            && x.Valid() && x.node == rule && f.node == where && a.node == action
            && read.value == RuleEngine.SettingsRule(
                 x.triggers, f.State(), ActionSettings.Doc(a.node.children, a.kind, ActionSettings.NoDetail)))
  {
    var x := Triggers.Rule.Make(rule);
    var f := Filter.Make(where);
    var a := ActionSettings.Action.Make(action);
    hide Triggers.ReadTriggers, Triggers.ReadName, Triggers.HasChild, ActionSettings.ReadType;
    FilterReads(where.children);
    if x == null || f == null || a == null {
      return None;
    }
    assert f.State().Agrees(ProcessName) && f.State().Agrees(WindowClass) && f.State().Agrees(WindowTitle);
    r := Some((x, f, a));
  }

  lemma FilterReads(c: Children)
    ensures ReadFilter(c).Some? <==> forall k :: ReadPatternAt(Get(c, KeyText(k))).Some?
  {
    hide ReadPatternAt, Get;
    if ReadFilter(c).Some? {
      forall k: FilterKey
        ensures ReadPatternAt(Get(c, KeyText(k))).Some?
      {
        match k case ProcessName => case WindowClass => case WindowTitle =>
      }
    }
  }

  /** What a user who looks at the shown filters expects of a window. Any process name
      matches an empty one, of whatever type. */
  ghost predicate Expected(used: seq<RuleEditor.Entry>, w: RuleEngine.Window) {
    forall i :: 0 <= i < |used| ==>
      (used[i].key == ProcessName && used[i].pattern.value == "") || RuleEngine.Says(used[i].pattern, w.At(used[i].key))
  }

  /** A shown filter that says something: not every window of its kind passes it. */
  ghost predicate ShownActive(used: seq<RuleEditor.Entry>, k: FilterKey) {
    exists i :: 0 <= i < |used| && used[i].key == k
      && (used[i].pattern.value != "" || (k != ProcessName && used[i].pattern.kind == Equals))
  }

  // ---- the settings say what is shown -------------------------------------------------------------

  lemma LiveIsShownOrEmpty(e: RuleEditor.Editor, k: FilterKey)
    requires RuleEditor.Inv(e, RuleEditor.ALL_KEYS) && RuleEditor.InSync(e)
    ensures (exists i :: 0 <= i < |e.used| && e.used[i].key == k && e.used[i].pattern == e.filter.Live(k))
      || (e.filter.Live(k) == NO_PATTERN && forall i :: 0 <= i < |e.used| ==> e.used[i].key != k)
  {
    hide FilterState.Live;
    assert RuleEditor.ALL_KEYS[0] == ProcessName && RuleEditor.ALL_KEYS[1] == WindowClass && RuleEditor.ALL_KEYS[2] == WindowTitle;
    assert k in RuleEditor.UsedKeys(e.used) || k in e.unused;
  }

  ghost predicate Agreed(f: FilterState, w: RuleEngine.Window, k: FilterKey) {
    (k == ProcessName && f.Live(k).value == "") || RuleEngine.Says(f.Live(k), w.At(k))
  }

  /** In step with the editor, settings accept a window exactly as expected, and the active
      fields are the shown filters that say something. */
  lemma InSyncMeansExpected(e: RuleEditor.Editor, w: RuleEngine.Window)
    requires RuleEditor.Inv(e, RuleEditor.ALL_KEYS) && RuleEditor.InSync(e)
    ensures RuleEngine.Accepts(e.filter, w) <==> Expected(e.used, w)
    ensures forall k :: RuleEngine.Active(e.filter, k) <==> ShownActive(e.used, k)
  {
    assert RuleEngine.Accepts(e.filter, w) <==>
      Agreed(e.filter, w, ProcessName) && Agreed(e.filter, w, WindowClass) && Agreed(e.filter, w, WindowTitle);
    hide RuleEngine.Says, RuleEngine.Accepts, FilterState.Live, RuleEditor.Inv;
    forall k: FilterKey
      ensures RuleEngine.Says(NO_PATTERN, w.At(k))
      ensures RuleEngine.Active(e.filter, k) <==> ShownActive(e.used, k)
      ensures Agreed(e.filter, w, k) || exists i :: 0 <= i < |e.used| && e.used[i].key == k && e.used[i].pattern == e.filter.Live(k)
    {
      RuleEngine.EmptyIsTautology(Contains, w.At(k));
      RuleEngine.MatchesMeaning(NO_PATTERN, w.At(k));
      LiveIsShownOrEmpty(e, k);
    }
    KeyByKey(e, w);
  }

  lemma KeyByKey(e: RuleEditor.Editor, w: RuleEngine.Window)
    requires RuleEditor.InSync(e)
    requires forall k ::
      Agreed(e.filter, w, k) || exists i :: 0 <= i < |e.used| && e.used[i].key == k && e.used[i].pattern == e.filter.Live(k)
    ensures Expected(e.used, w) <==> forall k :: Agreed(e.filter, w, k)
  {
    hide RuleEngine.Says, FilterState.Live;
    if forall k :: Agreed(e.filter, w, k) {
      forall i | 0 <= i < |e.used|
        ensures (e.used[i].key == ProcessName && e.used[i].pattern.value == "") || RuleEngine.Says(e.used[i].pattern, w.At(e.used[i].key))
      {
        assert Agreed(e.filter, w, e.used[i].key);
      }
    }
  }

  // ---- one rule among others through the compiler -------------------------------------------------

  lemma CompiledAppend(a: seq<RuleEngine.SettingsRule>, b: seq<RuleEngine.SettingsRule>, env: RuleEngine.Environment)
    ensures RuleEngine.CompileRules(a + b, env).Compiled? <==>
      RuleEngine.CompileRules(a, env).Compiled? && RuleEngine.CompileRules(b, env).Compiled?
  {
    hide RuleEngine.Compilable, RuleEngine.FirstBad, RuleEngine.CompileRules;
    RuleEngine.CompilesExactly(a, env);
    RuleEngine.CompilesExactly(b, env);
    RuleEngine.CompilesExactly(a + b, env);
    forall i | 0 <= i < |a| + |b|
      ensures (a + b)[i] == if i < |a| then a[i] else b[i - |a|]
    {
    }
    assert forall i :: 0 <= i < |b| ==> b[i] == (a + b)[|a| + i];
  }

  lemma ExecutedOfAppend(a: seq<RuleEngine.SettingsRule>, b: seq<RuleEngine.SettingsRule>, env: RuleEngine.Environment,
                         w: RuleEngine.Window, t: Flag)
    requires RuleEngine.CompileRules(a + b, env).Compiled?
    ensures RuleEngine.CompileRules(a, env).Compiled? && RuleEngine.CompileRules(b, env).Compiled?
    ensures RuleEngine.Executed(RuleEngine.CompileRules(a + b, env).rules, w, t)
         == RuleEngine.Executed(RuleEngine.CompileRules(a, env).rules, w, t)
            + RuleEngine.Executed(RuleEngine.CompileRules(b, env).rules, w, t)
  {
    hide RuleEngine.CompileRules, RuleEngine.Executed, RuleEngine.Direct;
    CompiledAppend(a, b, env);
    RuleEngine.CompiledRulesMeanSettings(a, env, w, t);
    RuleEngine.CompiledRulesMeanSettings(b, env, w, t);
    RuleEngine.CompiledRulesMeanSettings(a + b, env, w, t);
    RuleEngine.DirectAppend(a, b, env, w, t);
  }

  /** Alone, a readable rule with a known operation compiles exactly when its condition fits, and
      then runs its operation exactly when the trigger is set and the filter accepts the window. */
  lemma OneRuleAlone(r: RuleEngine.SettingsRule, env: RuleEngine.Environment, w: RuleEngine.Window, t: Flag)
    requires RuleEngine.Resolve(r.action, env).Some?
    ensures var o := RuleEngine.CompileRules([r], env);
      && (o.Compiled? <==> exists k :: !RuleEngine.Active(r.filter, k))
      && (o.Compiled? ==>
            RuleEngine.Executed(o.rules, w, t)
            == (if t in r.triggers && RuleEngine.Accepts(r.filter, w) then [RuleEngine.Resolve(r.action, env).value] else []))
  {
    assert !RuleEngine.Unreadable(r.action, env);
    hide RuleEngine.Accepts, RuleEngine.Active, RuleEngine.Condition, RuleEngine.Resolve, RuleEngine.Unreadable;
    RuleEngine.CapacityMeansTwoFields(r.filter);
    assert [r][..0] == [];
    assert RuleEngine.CompileRules([], env) == RuleEngine.Compiled([]);
    if RuleEngine.CompileRules([r], env).Compiled? {
      RuleEngine.CompiledRulesMeanSettings([r], env, w, t);
      assert [r][1..] == [];
      assert RuleEngine.Direct([], env, w, t) == [];
    }
  }

  lemma OverfullStops(before: seq<RuleEngine.SettingsRule>, r: RuleEngine.SettingsRule, after: seq<RuleEngine.SettingsRule>,
                      env: RuleEngine.Environment)
    requires RuleEngine.Resolve(r.action, env).Some?
    ensures RuleEngine.CompileRules(before, env).Compiled? && (forall k :: RuleEngine.Active(r.filter, k)) ==>
      RuleEngine.CompileRules(before + [r] + after, env).OutOfMemory?
  {
    assert !RuleEngine.Unreadable(r.action, env);
    RuleEngine.CapacityMeansTwoFields(r.filter);
    var rules := before + [r] + after;
    RuleEngine.CompilesExactly(before, env);
    RuleEngine.CompilesExactly(rules, env);
    hide RuleEngine.Active, RuleEngine.Condition, RuleEngine.Resolve, RuleEngine.Unreadable, RuleEngine.CompileRules;
    assert rules[|before|] == r && forall i :: 0 <= i < |before| ==> rules[i] == before[i];
    if RuleEngine.CompileRules(before, env).Compiled? && (forall k :: RuleEngine.Active(r.filter, k)) {
      assert !RuleEngine.Compilable(r, env);
      assert RuleEngine.FirstBad(rules, env, |before|);
    }
  }

  /** A document with a readable rule of a known operation compiles exactly when that rule's
      condition fits and the rules around it compile on their own. Then it runs what those run, in
      order, and between them the operation, exactly when the trigger is set and the filter
      accepts the window. If only its condition does not fit, compiling runs out of memory. */
  lemma OneRuleRuns(before: seq<RuleEngine.SettingsRule>, r: RuleEngine.SettingsRule, after: seq<RuleEngine.SettingsRule>,
                    env: RuleEngine.Environment, w: RuleEngine.Window, t: Flag)
    requires RuleEngine.Resolve(r.action, env).Some?
    ensures var o := RuleEngine.CompileRules(before + [r] + after, env);
      var b, a := RuleEngine.CompileRules(before, env), RuleEngine.CompileRules(after, env);
      && (o.Compiled? <==> b.Compiled? && a.Compiled? && exists k :: !RuleEngine.Active(r.filter, k))
      && (b.Compiled? && (forall k :: RuleEngine.Active(r.filter, k)) ==> o.OutOfMemory?)
      && (o.Compiled? ==>
            RuleEngine.Executed(o.rules, w, t)
            == RuleEngine.Executed(b.rules, w, t)
               + (if t in r.triggers && RuleEngine.Accepts(r.filter, w) then [RuleEngine.Resolve(r.action, env).value] else [])
               + RuleEngine.Executed(a.rules, w, t))
  {
    hide RuleEngine.Accepts, RuleEngine.Active, RuleEngine.Resolve, RuleEngine.CompileRules, RuleEngine.Executed;
    CompiledAppend(before, [r], env);
    CompiledAppend(before + [r], after, env);
    OneRuleAlone(r, env, w, t);
    OverfullStops(before, r, after, env);
    if RuleEngine.CompileRules(before + [r] + after, env).Compiled? {
      ExecutedOfAppend(before + [r], after, env, w, t);
      ExecutedOfAppend(before, [r], env, w, t);
    }
  }

  // ---- the main results ---------------------------------------------------------------------------------

  /** What the shown filters promise of a rule in its document. */
  ghost predicate ActsAsShown(
    used: seq<RuleEditor.Entry>, flags: set<Flag>, before: seq<RuleEngine.SettingsRule>, r: RuleEngine.SettingsRule,
    after: seq<RuleEngine.SettingsRule>, env: RuleEngine.Environment, w: RuleEngine.Window, t: Flag)
    requires RuleEngine.Resolve(r.action, env).Some?
  {
    var o := RuleEngine.CompileRules(before + [r] + after, env);
    var b, a := RuleEngine.CompileRules(before, env), RuleEngine.CompileRules(after, env);
    && (o.Compiled? <==> b.Compiled? && a.Compiled? && exists k :: !ShownActive(used, k))
    && (b.Compiled? && (forall k :: ShownActive(used, k)) ==> o.OutOfMemory?)
    && (o.Compiled? ==>
          RuleEngine.Executed(o.rules, w, t)
          == RuleEngine.Executed(b.rules, w, t)
             + (if t in flags && Expected(used, w) then [RuleEngine.Resolve(r.action, env).value] else [])
             + RuleEngine.Executed(a.rules, w, t))
  }

  /** Whatever was done in the editor, safe or not: after applying, the rule in memory lets the
      document compile exactly when at most two of the shown filters say something and the other
      rules compile. The engine then runs its operation, in its place among those of the other
      rules, exactly when the trigger is set and every shown filter passes the window. */
  lemma AppliedRuleActsAsShown(f: FilterState, commands: seq<RuleEditor.Command>, flags: set<Flag>, action: ActionSettings.Doc,
                               before: seq<RuleEngine.SettingsRule>, after: seq<RuleEngine.SettingsRule>,
                               env: RuleEngine.Environment, w: RuleEngine.Window, t: Flag)
    requires RuleEngine.Resolve(action, env).Some?
    ensures var e := RuleEditor.Run(RuleEditor.Opened(f, RuleEditor.ALL_KEYS), RuleEditor.ALL_KEYS, commands);
      var r := RuleEngine.SettingsRule(flags, RuleEditor.ApplyAll(e).filter, action);
      ActsAsShown(e.used, flags, before, r, after, env, w, t)
  {
    hide RuleEditor.Run, RuleEditor.ApplyAll, RuleEngine.CompileRules, RuleEngine.Executed, RuleEngine.Accepts, RuleEngine.Active,
      RuleEngine.Resolve, RuleEditor.Inv;
    var keys := RuleEditor.ALL_KEYS;
    RuleEditor.AllKeysDistinct();
    RuleEditor.RunKeepsInv(f, keys, commands);
    var e := RuleEditor.Run(RuleEditor.Opened(f, keys), keys, commands);
    RuleEditor.ApplySyncs(e, keys);
    var a := RuleEditor.ApplyAll(e);
    InSyncMeansExpected(a, w);
    ExpectedIgnoresPending(e.used, a.used, w);
    OneRuleRuns(before, RuleEngine.SettingsRule(flags, a.filter, action), after, env, w, t);
  }

  lemma ExpectedIgnoresPending(used: seq<RuleEditor.Entry>, settled: seq<RuleEditor.Entry>, w: RuleEngine.Window)
    requires |used| == |settled| && forall i :: 0 <= i < |used| ==> settled[i] == used[i].(pending := false)
    ensures Expected(used, w) <==> Expected(settled, w)
    ensures forall k :: ShownActive(used, k) <==> ShownActive(settled, k)
  {
    hide RuleEngine.Says;
  }

  /** The nodes after the flags were written and the editor was applied. */
  function Saved(n: RuleNode, flags: set<Flag>, e: RuleEditor.Editor): RuleNode
    requires Triggers.Parses(n.rule)
  {
    Triggers.WriteKeepsParsing(n.rule, flags);
    n.(rule := Triggers.WriteTriggers(n.rule, flags), filter := RuleEditor.ApplyAll(e).filter.children)
  }

  /** Reading the saved nodes anew always gives a rule. It is the rule in memory exactly when
      every shown pattern survives the notation; flags and action always are. */
  lemma SavedRuleReadsBackExactly(n: RuleNode, f: FilterState, commands: seq<RuleEditor.Command>, flags: set<Flag>)
    requires f.Valid() && f.children == n.filter
    requires Triggers.Parses(n.rule) && ActionSettings.ReadType(n.action).Some?
    ensures var e := RuleEditor.Run(RuleEditor.Opened(f, RuleEditor.ALL_KEYS), RuleEditor.ALL_KEYS, commands);
      var r := ReadRule(Saved(n, flags, e));
      && r.Some? && r.value.triggers == flags
      && r.value.action == ActionSettings.Doc(n.action, ActionSettings.ReadType(n.action).value, ActionSettings.NoDetail)
      && (r.value.filter == RuleEditor.ApplyAll(e).filter <==>
            forall i :: 0 <= i < |e.used| ==> CodecSafe(e.used[i].pattern))
  {
    hide RuleEditor.Run, RuleEditor.ApplyAll, FilterState.Valid, FilterState.Consistent, CodecSafe, ReadFilter, Triggers.WriteTriggers,
      Triggers.ReadTriggers, Triggers.Parses, ActionSettings.ReadType;
    var keys := RuleEditor.ALL_KEYS;
    RuleEditor.AllKeysDistinct();
    EveryKeyIsListed();
    var e := RuleEditor.Run(RuleEditor.Opened(f, keys), keys, commands);
    RuleEditor.ApplyAgreesExactly(f, keys, commands);
    ValidMeansConsistent(f);
    RuleEditor.RunKeepsConsistent(f, keys, commands);
    RuleEditor.ApplyKeepsConsistent(e);
    ReadFilterExactly(RuleEditor.ApplyAll(e).filter);
    Triggers.WriteKeepsParsing(n.rule, flags);
    Triggers.ReadAfterWrite(n.rule, flags);
  }

  lemma EveryKeyIsListed()
    ensures forall k :: k in RuleEditor.ALL_KEYS
  {
    forall k: FilterKey
      ensures k in RuleEditor.ALL_KEYS
    {
      assert k == RuleEditor.ALL_KEYS[match k case ProcessName => 0 case WindowClass => 1 case WindowTitle => 2];
    }
  }

  lemma ReadFilterExactly(f: FilterState)
    requires f.Consistent()
    ensures ReadFilter(f.children).Some?
    ensures ReadFilter(f.children) == Some(f) <==> f.Valid()
  {
    hide WritePattern;
    assert f.Written(ProcessName) && f.Written(WindowClass) && f.Written(WindowTitle);
    if f.Agrees(ProcessName) && f.Agrees(WindowClass) && f.Agrees(WindowTitle) {
      assert forall k :: f.Agrees(k);
    }
    if f.Valid() {
      assert f.Agrees(ProcessName) && f.Agrees(WindowClass) && f.Agrees(WindowTitle);
    }
  }

  /** The shown filters as their texts are read again. */
  function Reread(used: seq<RuleEditor.Entry>): (r: seq<RuleEditor.Entry>)
    ensures |r| == |used|
    ensures forall i :: 0 <= i < |used| ==> r[i] == used[i].(pattern := ReadPattern(WritePattern(used[i].pattern)))
  {
    seq(|used|, i requires 0 <= i < |used| => used[i].(pattern := ReadPattern(WritePattern(used[i].pattern))))
  }

  lemma ReadLive(f: FilterState, k: FilterKey)
    requires f.Consistent()
    ensures ReadFilter(f.children).Some?
    ensures ReadFilter(f.children).value.Live(k) == ReadPattern(WritePattern(f.Live(k)))
  {
    hide WritePattern, ReadPattern;
    ReadFilterExactly(f);
    assert f.Written(k);
    ReadAfterWrite(NO_PATTERN);
    EmptyPatternText();
  }

  lemma EmptyPatternText()
    ensures WritePattern(NO_PATTERN) == "" && ReadPattern("") == NO_PATTERN
  {
  }

  /** Reading a saved filter anew gives settings that are in step with the filters as reread. */
  lemma RereadIsInSync(a: RuleEditor.Editor)
    requires RuleEditor.Inv(a, RuleEditor.ALL_KEYS) && RuleEditor.InSync(a) && a.deleting == [] && a.filter.Consistent()
    requires forall i :: 0 <= i < |a.used| ==> !a.used[i].pending
    ensures ReadFilter(a.filter.children).Some?
    ensures var r := a.(filter := ReadFilter(a.filter.children).value, used := Reread(a.used));
      RuleEditor.Inv(r, RuleEditor.ALL_KEYS) && RuleEditor.InSync(r)
  {
    hide FilterState.Live, FilterState.Consistent, ReadFilter, WritePattern, ReadPattern, RuleEditor.Without;
    EmptyPatternText();
    forall k: FilterKey
      ensures ReadFilter(a.filter.children).Some?
      ensures ReadFilter(a.filter.children).value.Live(k) == ReadPattern(WritePattern(a.filter.Live(k)))
    {
      ReadLive(a.filter, k);
    }
    assert ReadFilter(a.filter.children).Some? by { ReadLive(a.filter, ProcessName); }
    SameKeys(a.used, Reread(a.used));
  }

  lemma SameKeys(a: seq<RuleEditor.Entry>, b: seq<RuleEditor.Entry>)
    requires |a| == |b| && forall i :: 0 <= i < |a| ==> a[i].key == b[i].key
    ensures RuleEditor.UsedKeys(a) == RuleEditor.UsedKeys(b)
  {
    forall k
      ensures k in RuleEditor.UsedKeys(a) <==> k in RuleEditor.UsedKeys(b)
    {
    }
  }

  /** Saved, read anew and compiled among other rules, safe or not: a rule acts as if each shown
      pattern were the one that its text is read as. */
  lemma SavedRuleActsAsReread(n: RuleNode, f: FilterState, commands: seq<RuleEditor.Command>, flags: set<Flag>,
                              before: seq<RuleEngine.SettingsRule>, after: seq<RuleEngine.SettingsRule>,
                              env: RuleEngine.Environment, w: RuleEngine.Window, t: Flag)
    requires f.Valid() && f.children == n.filter
    requires Triggers.Parses(n.rule) && ActionSettings.ReadType(n.action).Some?
    ensures var e := RuleEditor.Run(RuleEditor.Opened(f, RuleEditor.ALL_KEYS), RuleEditor.ALL_KEYS, commands);
      var r := ReadRule(Saved(n, flags, e));
      && r.Some?
      && (RuleEngine.Resolve(r.value.action, env).Some? ==>
            ActsAsShown(Reread(e.used), flags, before, r.value, after, env, w, t))
  {
    hide RuleEditor.Run, RuleEditor.ApplyAll, FilterState.Valid, FilterState.Consistent, ReadFilter, RuleEngine.CompileRules,
      RuleEngine.Executed, RuleEngine.Accepts, RuleEngine.Active, RuleEngine.Resolve, RuleEditor.Inv, Triggers.Parses,
      ActionSettings.ReadType, Triggers.WriteTriggers, Expected, ShownActive, WritePattern, ReadPattern;
    var keys := RuleEditor.ALL_KEYS;
    RuleEditor.AllKeysDistinct();
    RuleEditor.RunKeepsInv(f, keys, commands);
    var e := RuleEditor.Run(RuleEditor.Opened(f, keys), keys, commands);
    RuleEditor.ApplySyncs(e, keys);
    ValidMeansConsistent(f);
    RuleEditor.RunKeepsConsistent(f, keys, commands);
    RuleEditor.ApplyKeepsConsistent(e);
    SavedRuleReadsBackExactly(n, f, commands, flags);
    var a := RuleEditor.ApplyAll(e);
    RereadIsInSync(a);
    var r := ReadRule(Saved(n, flags, e)).value;
    if RuleEngine.Resolve(r.action, env).Some? {
      InSyncMeansExpected(a.(filter := r.filter, used := Reread(a.used)), w);
      ExpectedIgnoresPending(Reread(e.used), Reread(a.used), w);
      OneRuleRuns(before, r, after, env, w, t);
    }
  }

  /** Saved, read anew and compiled among other rules: a rule whose shown patterns survive the
      notation acts as shown. */
  lemma SavedRuleActsAsShown(n: RuleNode, f: FilterState, commands: seq<RuleEditor.Command>, flags: set<Flag>,
                             before: seq<RuleEngine.SettingsRule>, after: seq<RuleEngine.SettingsRule>,
                             env: RuleEngine.Environment, w: RuleEngine.Window, t: Flag)
    requires f.Valid() && f.children == n.filter
    requires Triggers.Parses(n.rule) && ActionSettings.ReadType(n.action).Some?
    ensures var e := RuleEditor.Run(RuleEditor.Opened(f, RuleEditor.ALL_KEYS), RuleEditor.ALL_KEYS, commands);
      var r := ReadRule(Saved(n, flags, e));
      (forall i :: 0 <= i < |e.used| ==> CodecSafe(e.used[i].pattern)) && r.Some? && RuleEngine.Resolve(r.value.action, env).Some? ==>
        ActsAsShown(e.used, flags, before, r.value, after, env, w, t)
  {
    hide RuleEditor.Run, RuleEditor.ApplyAll, FilterState.Valid, CodecSafe, ReadRule, RuleEngine.Resolve, Triggers.Parses,
      ActionSettings.ReadType, ActsAsShown, Saved, WritePattern, ReadPattern;
    var e := RuleEditor.Run(RuleEditor.Opened(f, RuleEditor.ALL_KEYS), RuleEditor.ALL_KEYS, commands);
    SavedRuleActsAsReread(n, f, commands, flags, before, after, env, w, t);
    if forall i :: 0 <= i < |e.used| ==> CodecSafe(e.used[i].pattern) {
      forall i | 0 <= i < |e.used|
        ensures Reread(e.used)[i] == e.used[i]
      {
        ReadAfterWrite(e.used[i].pattern);
      }
      assert Reread(e.used) == e.used;
    }
  }
}
