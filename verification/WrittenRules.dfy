/** Rules as the documentation writes them, from their YAML nodes to what the engine runs. */
module WrittenRules {
  import opened Wrappers
  import opened Text
  import opened MatchPattern
  import opened SettingsTree
  import ActionSettings
  import RuleEngine
  import SavedRules
  import Triggers

  type Flag = Triggers.Flag

  /** The documented trigger names, in any case. */
  predicate Selects(when: string, t: Flag) {
    SameIgnoringCase(when, match t case ApplicationStart => "init" case WindowFocus => "focus" case WindowShow => "show")
  }

  function RuleKeys(name: string, when: string): Triggers.MapNode {
    [("name", Triggers.Scalar(name)), ("when", Triggers.Scalar(when)), ("where", Triggers.Opaque(0)), ("then", Triggers.Opaque(1))]
  }

  lemma RuleKeysRead(name: string, when: string)
    ensures Triggers.Parses(RuleKeys(name, when)) && Triggers.ReadTriggers(RuleKeys(name, when)).Flags?
    ensures Triggers.ReadName(RuleKeys(name, when)) == Some(name)
    ensures forall t :: t in Triggers.ReadTriggers(RuleKeys(name, when)).flags <==> Selects(when, t)
  {
    var n := RuleKeys(name, when);
    assert "when" != "where" && "when" != "then" && "where" != "then" by {
      assert |"when"| == 4 && |"where"| == 5 && "when"[0] == 'w' && "then"[0] == 't';
    }
    assert "name" != "when" && "name" != "where" && "name" != "then" by {
      assert |"name"| == 4 && "name"[0] == 'n' && "when"[0] == 'w' && "where"[0] == 'w' && "then"[0] == 't';
    }
    Triggers.FindIs(n, "name", 0);
    Triggers.FindIs(n, "when", 1);
    Triggers.FindIs(n, "where", 2);
    Triggers.FindIs(n, "then", 3);
    Triggers.ScalarFlags(when);
    forall t: Flag
      ensures Triggers.ToFlag(when) == Some(t) <==> Selects(when, t)
    {
      Triggers.FlagTexts(when, t);
    }
  }

  /** A rule as the documentation writes it, with a title that must start with a text and an
      absolute action: it runs exactly on its trigger and for the windows whose title starts so, and
      moves them to the numbers that are written. */
  lemma WrittenAbsoluteRule(name: string, when: string, title: string, kind: string, texts: ActionSettings.Bounds<string>,
                            b: ActionSettings.Bounds<int>, env: RuleEngine.Environment, w: RuleEngine.Window, t: Flag)
    requires !FinishesWith(title, '$') && SameIgnoringCase(kind, "absolute_move_and_resize")
    requires forall a :: env.codec.scanInt(texts.At(a)) == Some(b.At(a))
    requires -16384 <= b.x <= 16384 && -16384 <= b.y <= 16384 && 0 <= b.w <= 16384 && 0 <= b.h <= 16384
    ensures var r := SavedRules.ReadRule(SavedRules.RuleNode(
        RuleKeys(name, when),
        [("title", Plain("^" + title))],
        [("type", Plain(kind)), ("x", Plain(texts.x)), ("y", Plain(texts.y)), ("width", Plain(texts.w)), ("height", Plain(texts.h))]));
      && r.Some?
      && RuleEngine.CompileRules([r.value], env).Compiled?
      && RuleEngine.Executed(RuleEngine.CompileRules([r.value], env).rules, w, t)
         == if Selects(when, t) && title <= w.title then [RuleEngine.AbsoluteMove(b)] else []
  {
    var filter: Children := [("title", Plain("^" + title))];
    var action: Children :=
      [("type", Plain(kind)), ("x", Plain(texts.x)), ("y", Plain(texts.y)), ("width", Plain(texts.w)), ("height", Plain(texts.h))];
    RuleKeysRead(name, when);
    TitleFilter(title, w);
    AbsoluteActionRead(kind, texts, b, env);
    hide SavedRules.ReadFilter, Triggers.Parses, Triggers.ReadTriggers, RuleKeys, ActionSettings.ReadType, RuleEngine.Resolve,
      RuleEngine.Accepts, RuleEngine.Active, RuleEngine.CompileRules, RuleEngine.Executed, Selects;
    var r := SavedRules.ReadRule(SavedRules.RuleNode(RuleKeys(name, when), filter, action)).value;
    SavedRules.OneRuleAlone(r, env, w, t);
    assert !RuleEngine.Active(r.filter, ProcessName);
  }

  lemma TitleFilter(title: string, w: RuleEngine.Window)
    requires !FinishesWith(title, '$')
    ensures var f := SavedRules.ReadFilter([("title", Plain("^" + title))]);
      && f.Some?
      && (RuleEngine.Accepts(f.value, w) <==> title <= w.title)
      && !RuleEngine.Active(f.value, ProcessName)
  {
    assert KeyText(ProcessName) != "title" && KeyText(WindowClass) != "title" && KeyText(WindowTitle) == "title" by {
      assert |"title"| == 5 && |"process"| == 7 && "title"[0] == 't' && "class"[0] == 'c';
    }
    NotationReads(title);
    var c: Children := [("title", Plain("^" + title))];
    assert c[0].0 == KeyText(WindowTitle);
    assert Get(c[1..], KeyText(ProcessName)).None? && Get(c[1..], KeyText(WindowClass)).None?;
    assert Get(c, KeyText(WindowTitle)) == Some(c[0].1);
    SavedRules.EmptyPatternText();
    hide ReadPattern;
    RuleEngine.EmptyIsTautology(Contains, w.windowClass);
    RuleEngine.MatchesMeaning(NO_PATTERN, w.windowClass);
    RuleEngine.MatchesMeaning(Pattern(StartsWith, title), w.title);
    hide RuleEngine.Says;
  }

  lemma AbsoluteActionRead(kind: string, texts: ActionSettings.Bounds<string>, b: ActionSettings.Bounds<int>, env: RuleEngine.Environment)
    requires SameIgnoringCase(kind, "absolute_move_and_resize")
    requires forall a :: env.codec.scanInt(texts.At(a)) == Some(b.At(a))
    requires -16384 <= b.x <= 16384 && -16384 <= b.y <= 16384 && 0 <= b.w <= 16384 && 0 <= b.h <= 16384
    ensures var c: Children :=
        [("type", Plain(kind)), ("x", Plain(texts.x)), ("y", Plain(texts.y)), ("width", Plain(texts.w)), ("height", Plain(texts.h))];
      && ActionSettings.ReadType(c) == Some(ActionSettings.AbsoluteMoveAndResize)
      && RuleEngine.Resolve(ActionSettings.Doc(c, ActionSettings.AbsoluteMoveAndResize, ActionSettings.NoDetail), env)
         == Some(RuleEngine.AbsoluteMove(b))
  {
    var c: Children :=
      [("type", Plain(kind)), ("x", Plain(texts.x)), ("y", Plain(texts.y)), ("width", Plain(texts.w)), ("height", Plain(texts.h))];
    FiveKeys(c);
    ActionSettings.TypesRead(c);
    hide Get;
    var d := ActionSettings.Doc(c, ActionSettings.AbsoluteMoveAndResize, ActionSettings.NoDetail);
    forall a: ActionSettings.Axis
      ensures ReadNumber(ActionSettings.AbsoluteField(env.codec, a), c) == Some(b.At(a))
    {
      assert env.codec.scanInt(texts.At(a)) == Some(b.At(a));
      ActionSettings.AbsoluteNumbers(env.codec, c, a, b.At(a));
    }
    hide ReadNumber, ActionSettings.Open, RuleEngine.Resolve, RuleEngine.Unreadable;
    RuleEngine.UnreadableExactly(d, env);
    RuleEngine.ResolveMeaning(d, env);
    SameBounds(RuleEngine.Resolve(d, env).value.bounds, b);
  }

  lemma SameBounds<T>(a: ActionSettings.Bounds<T>, b: ActionSettings.Bounds<T>)
    ensures (forall x :: a.At(x) == b.At(x)) ==> a == b
  {
    if forall x :: a.At(x) == b.At(x) {
      assert a.At(ActionSettings.X) == b.At(ActionSettings.X) && a.At(ActionSettings.Y) == b.At(ActionSettings.Y);
      assert a.At(ActionSettings.Width) == b.At(ActionSettings.Width) && a.At(ActionSettings.Height) == b.At(ActionSettings.Height);
    }
  }

  lemma FiveKeys(c: Children)
    requires |c| == 5 && c[0].0 == "type" && c[1].0 == "x" && c[2].0 == "y" && c[3].0 == "width" && c[4].0 == "height"
    ensures Get(c, "type") == Some(c[0].1) && Get(c, "x") == Some(c[1].1) && Get(c, "y") == Some(c[2].1)
    ensures Get(c, "width") == Some(c[3].1) && Get(c, "height") == Some(c[4].1)
  {
    ActionSettings.KeysDiffer(ActionSettings.X, ActionSettings.Y);
    ActionSettings.KeysDiffer(ActionSettings.Width, ActionSettings.Height);
    ActionSettings.KeysDiffer(ActionSettings.X, ActionSettings.Width);
    ActionSettings.KeysDiffer(ActionSettings.X, ActionSettings.Height);
    ActionSettings.KeysDiffer(ActionSettings.Y, ActionSettings.Width);
    ActionSettings.KeysDiffer(ActionSettings.Y, ActionSettings.Height);
    assert Get(c[4..], "height") == Some(c[4].1);
    assert Get(c[3..], "height") == Some(c[4].1) && Get(c[3..], "width") == Some(c[3].1);
    assert Get(c[2..], "height") == Some(c[4].1) && Get(c[2..], "width") == Some(c[3].1) && Get(c[2..], "y") == Some(c[2].1);
  }

  /** Likewise with a relative action, a process name that must end with a text and a class that must
      be one: it runs exactly if, besides, the numbered monitor is known. */
  lemma WrittenRelativeRule(name: string, when: string, process: string, class_: string, kind: string, idText: string, id: int,
                            texts: ActionSettings.Bounds<string>, b: ActionSettings.Bounds<real>, env: RuleEngine.Environment,
                            w: RuleEngine.Window, t: Flag)
    requires !BeginsWith(process, '^') && SameIgnoringCase(kind, "relative_move_and_resize")
    requires env.codec.scanInt(idText) == Some(id) && 1 <= id <= 16
    requires forall a :: env.codec.scanReal(texts.At(a)) == Some(b.At(a)) && 0.0 <= b.At(a) <= 1.0
    ensures var r := SavedRules.ReadRule(SavedRules.RuleNode(
        RuleKeys(name, when),
        [("process", Plain(process + "$")), ("class", Plain("^" + class_ + "$"))],
        [("type", Plain(kind)), ("id", Plain(idText)), ("x", Plain(texts.x)), ("y", Plain(texts.y)),
         ("width", Plain(texts.w)), ("height", Plain(texts.h))]));
      && r.Some?
      && RuleEngine.CompileRules([r.value], env).Compiled?
      && RuleEngine.Executed(RuleEngine.CompileRules([r.value], env).rules, w, t)
         == if Selects(when, t) && (exists front: string :: w.process == front + process) && w.windowClass == class_
                && env.monitors(id).Some?
            then [RuleEngine.RelativeMove(env.monitors(id).value, b)] else []
  {
    var filter: Children := [("process", Plain(process + "$")), ("class", Plain("^" + class_ + "$"))];
    var action: Children := [("type", Plain(kind)), ("id", Plain(idText)), ("x", Plain(texts.x)), ("y", Plain(texts.y)),
      ("width", Plain(texts.w)), ("height", Plain(texts.h))];
    RuleKeysRead(name, when);
    ProcessAndClassFilter(process, class_, w);
    RelativeActionRead(kind, idText, id, texts, b, env);
    hide SavedRules.ReadFilter, Triggers.Parses, Triggers.ReadTriggers, RuleKeys, ActionSettings.ReadType, RuleEngine.Resolve,
      RuleEngine.Accepts, RuleEngine.Active, RuleEngine.CompileRules, RuleEngine.Executed, RuleEngine.Unreadable, Selects;
    var r := SavedRules.ReadRule(SavedRules.RuleNode(RuleKeys(name, when), filter, action)).value;
    if RuleEngine.Resolve(r.action, env).Some? {
      SavedRules.OneRuleAlone(r, env, w, t);
      assert !RuleEngine.Active(r.filter, WindowTitle);
    } else {
      DroppedAlone(r, env, w, t);
    }
  }

  /** A rule without an operation is left out. */
  lemma DroppedAlone(r: RuleEngine.SettingsRule, env: RuleEngine.Environment, w: RuleEngine.Window, t: Flag)
    requires !RuleEngine.Unreadable(r.action, env) && RuleEngine.Resolve(r.action, env).None?
    ensures RuleEngine.CompileRules([r], env) == RuleEngine.Compiled([]) && RuleEngine.Executed([], w, t) == []
  {
    hide RuleEngine.Unreadable, RuleEngine.Resolve;
    assert [r][..0] == [];
  }

  lemma ProcessAndClassFilter(process: string, class_: string, w: RuleEngine.Window)
    requires !BeginsWith(process, '^')
    ensures var f := SavedRules.ReadFilter([("process", Plain(process + "$")), ("class", Plain("^" + class_ + "$"))]);
      && f.Some?
      && (RuleEngine.Accepts(f.value, w) <==> (exists front: string :: w.process == front + process) && w.windowClass == class_)
      && !RuleEngine.Active(f.value, WindowTitle)
  {
    ProcessAndClassRead(process, class_);
    hide SavedRules.ReadFilter;
    RuleEngine.EmptyIsTautology(Contains, w.title);
    RuleEngine.MatchesMeaning(NO_PATTERN, w.title);
    if process == "" {
      assert w.process == w.process + process;
    }
  }

  lemma ProcessAndClassRead(process: string, class_: string)
    requires !BeginsWith(process, '^')
    ensures var c: Children := [("process", Plain(process + "$")), ("class", Plain("^" + class_ + "$"))];
      SavedRules.ReadFilter(c) == Some(FilterState(c, Pattern(EndsWith, process), Pattern(Equals, class_), NO_PATTERN))
  {
    hide Get, ReadPattern;
    NotationReads(process);
    NotationReads(class_);
    var c: Children := [("process", Plain(process + "$")), ("class", Plain("^" + class_ + "$"))];
    TwoKeys(c);
  }

  lemma TwoKeys(c: Children)
    requires |c| == 2 && c[0].0 == "process" && c[1].0 == "class"
    ensures Get(c, KeyText(ProcessName)) == Some(c[0].1) && Get(c, KeyText(WindowClass)) == Some(c[1].1)
    ensures Get(c, KeyText(WindowTitle)).None?
  {
    assert "title"[0] == 't' && "process"[0] == 'p' && "class"[0] == 'c';
    assert c[1..][0] == c[1];
    NotThere(c, KeyText(WindowTitle));
  }

  lemma RelativeActionRead(kind: string, idText: string, id: int, texts: ActionSettings.Bounds<string>,
                           b: ActionSettings.Bounds<real>, env: RuleEngine.Environment)
    requires SameIgnoringCase(kind, "relative_move_and_resize")
    requires env.codec.scanInt(idText) == Some(id) && 1 <= id <= 16
    requires forall a :: env.codec.scanReal(texts.At(a)) == Some(b.At(a)) && 0.0 <= b.At(a) <= 1.0
    ensures var c: Children := [("type", Plain(kind)), ("id", Plain(idText)), ("x", Plain(texts.x)), ("y", Plain(texts.y)),
        ("width", Plain(texts.w)), ("height", Plain(texts.h))];
      var d := ActionSettings.Doc(c, ActionSettings.RelativeMoveAndResize, ActionSettings.NoDetail);
      && ActionSettings.ReadType(c) == Some(ActionSettings.RelativeMoveAndResize)
      && !RuleEngine.Unreadable(d, env)
      && RuleEngine.Resolve(d, env)
         == if env.monitors(id).Some? then Some(RuleEngine.RelativeMove(env.monitors(id).value, b)) else None
  {
    var c: Children := [("type", Plain(kind)), ("id", Plain(idText)), ("x", Plain(texts.x)), ("y", Plain(texts.y)),
      ("width", Plain(texts.w)), ("height", Plain(texts.h))];
    SixKeys(c);
    ActionSettings.TypesRead(c);
    NotBoth(kind);
    hide Get;
    var d := ActionSettings.Doc(c, ActionSettings.RelativeMoveAndResize, ActionSettings.NoDetail);
    ActionSettings.MonitorNumbers(env.codec, c, id);
    forall a: ActionSettings.Axis
      ensures ReadNumber(ActionSettings.RelativeField(env.codec, a), c) == Some(b.At(a))
    {
      assert env.codec.scanReal(texts.At(a)) == Some(b.At(a)) && 0.0 <= b.At(a) <= 1.0;
      ActionSettings.RelativeNumbers(env.codec, c, a, b.At(a));
    }
    hide ReadNumber, ActionSettings.Open, RuleEngine.Resolve, RuleEngine.Unreadable;
    RuleEngine.UnreadableExactly(d, env);
    RuleEngine.ResolveMeaning(d, env);
    if RuleEngine.Resolve(d, env).Some? {
      SameBounds(RuleEngine.Resolve(d, env).value.fractions, b);
    }
  }

  lemma NotBoth(kind: string)
    requires SameIgnoringCase(kind, "relative_move_and_resize")
    ensures !SameIgnoringCase(kind, "absolute_move_and_resize")
  {
    assert "relative_move_and_resize"[0] == 'r' && "absolute_move_and_resize"[0] == 'a';
  }

  lemma SixKeys(c: Children)
    requires |c| == 6 && c[0].0 == "type" && c[1].0 == "id" && c[2].0 == "x" && c[3].0 == "y" && c[4].0 == "width" && c[5].0 == "height"
    ensures Get(c, "type") == Some(c[0].1) && Get(c, "id") == Some(c[1].1) && Get(c, "x") == Some(c[2].1)
    ensures Get(c, "y") == Some(c[3].1) && Get(c, "width") == Some(c[4].1) && Get(c, "height") == Some(c[5].1)
    ensures Get(c, "name").None?
  {
    assert |"type"| == 4 && |"id"| == 2 && |"x"| == 1 && |"y"| == 1 && |"width"| == 5 && |"height"| == 6 && |"name"| == 4;
    assert "x"[0] == 'x' && "y"[0] == 'y' && "type"[0] == 't' && "name"[0] == 'n';
    var rest := [c[0]] + c[2..];
    FiveKeys(rest);
    SkipSecond(c, "x");
    SkipSecond(c, "y");
    SkipSecond(c, "width");
    SkipSecond(c, "height");
    NotThere(c, "name");
    assert Get(c, "id") == Some(c[1].1) by { assert c[1..][0] == c[1]; }
  }

  lemma SkipSecond(c: Children, key: string)
    requires |c| > 1 && c[1].0 != key
    ensures Get(c, key) == Get([c[0]] + c[2..], key)
  {
    assert c[1..][1..] == c[2..] && ([c[0]] + c[2..])[1..] == c[2..];
  }

  lemma {:induction false} NotThere(c: Children, key: string)
    requires forall i :: 0 <= i < |c| ==> c[i].0 != key
    ensures Get(c, key).None?
  {
    if c != [] {
      NotThere(c[1..], key);
    }
  }
}
