/** The action of a rule and its detail objects, which share one node. */
module ActionSettings {
  import opened Wrappers
  import opened Text
  import opened MatchPattern
  import opened SettingsTree
  import Binary32

  datatype ActionType = Invalid | AbsoluteMoveAndResize | RelativeMoveAndResize

  const TYPE := "type"
  const MONITOR_ID := "id"
  const MONITOR_NAME := "name"

  datatype Axis = X | Y | Width | Height

  function AxisKey(a: Axis): string {
    match a
    case X => "x"
    case Y => "y"
    case Width => "width"
    case Height => "height"
  }

  lemma KeysDiffer(a: Axis, b: Axis)
    ensures AxisKey(a) == AxisKey(b) <==> a == b
    ensures AxisKey(a) != TYPE && AxisKey(a) != MONITOR_ID && AxisKey(a) != MONITOR_NAME
    ensures TYPE != MONITOR_ID && TYPE != MONITOR_NAME && MONITOR_ID != MONITOR_NAME
  {
    assert |"x"| == 1 && |"y"| == 1 && "x"[0] == 'x' && "y"[0] == 'y';
    assert "width"[0] == 'w' && "height"[0] == 'h' && |"type"| == 4 && |"id"| == 2 && |"name"| == 4;
    assert "type"[0] == 't' && "name"[0] == 'n';
  }

  // ---- the type -----------------------------------------------------------------------

  function TypeName(t: ActionType): string
    requires t != Invalid
  {
    if t == AbsoluteMoveAndResize then "absolute_move_and_resize" else "relative_move_and_resize"
  }

  function ToActionType(text: string): ActionType {
    if SameIgnoringCase(text, TypeName(AbsoluteMoveAndResize)) then AbsoluteMoveAndResize
    else if SameIgnoringCase(text, TypeName(RelativeMoveAndResize)) then RelativeMoveAndResize
    else Invalid
  }

  lemma TypeNamesRoundTrip(t: ActionType)
    requires t != Invalid
    ensures ToActionType(TypeName(t)) == t
  {
    assert "absolute_move_and_resize"[0] == 'a' && "relative_move_and_resize"[0] == 'r';
  }

  /** None stands for the parse error. */
  function ReadType(c: Children): Option<ActionType> {
    match Get(c, TYPE)
    case None => Some(Invalid)
    case Some(Plain(text)) => Some(ToActionType(text))
    case Some(Container(_)) => None
  }

  /** The keys that the detail object of a type owns, in the order they are removed. */
  function OwnedKeys(t: ActionType): seq<string> {
    match t
    case Invalid => []
    case AbsoluteMoveAndResize => ["x", "y", "width", "height"]
    case RelativeMoveAndResize => ["id", "name", "x", "y", "width", "height"]
  }

  function RemoveAll(c: Children, keys: seq<string>): Children
    decreases |keys|
  {
    if keys == [] then c else RemoveAll(Remove(c, keys[0]), keys[1..])
  }

  lemma {:induction false} RemoveAllMeaning(c: Children, keys: seq<string>, other: string, all: set<string>)
    requires DistinctKeys(c)
    ensures DistinctKeys(RemoveAll(c, keys))
    ensures Get(RemoveAll(c, keys), other) == if other in keys then None else Get(c, other)
    ensures (forall key :: key in keys ==> key in all) ==> Except(RemoveAll(c, keys), all) == Except(c, all)
    decreases |keys|
  {
    if keys != [] {
      RemoveMeaning(c, keys[0], other);
      RemoveAllMeaning(Remove(c, keys[0]), keys[1..], other, all);
      if keys[0] in all {
        EditsKeepOthers(c, keys[0], "", all);
      }
    }
  }

  function WriteType(c: Children, t: ActionType): Children {
    if t == Invalid then Remove(c, TYPE) else Put(c, TYPE, TypeName(t))
  }

  function ChangeType(c: Children, from: ActionType, to: ActionType): Children {
    if from == to then c else RemoveAll(WriteType(c, to), OwnedKeys(from))
  }

  predicate Owns(t: ActionType, key: string) {
    key in OwnedKeys(t)
  }

  lemma TypeIsNotOwned(t: ActionType)
    ensures !Owns(t, TYPE)
    ensures forall a :: t != Invalid ==> Owns(t, AxisKey(a))
  {
    KeysDiffer(X, Y);
    KeysDiffer(Width, Height);
    assert t == AbsoluteMoveAndResize ==> OwnedKeys(t)[0] == "x" && OwnedKeys(t)[1] == "y"
                                          && OwnedKeys(t)[2] == "width" && OwnedKeys(t)[3] == "height";
    assert t == RelativeMoveAndResize ==> OwnedKeys(t)[2] == "x" && OwnedKeys(t)[3] == "y"
                                          && OwnedKeys(t)[4] == "width" && OwnedKeys(t)[5] == "height";
  }

  /** After a change of type the new type is read, the fields that the left type owned are gone,
      every other child keeps its value, and unknown children also keep their order. */
  lemma ChangeTypeMeaning(c: Children, from: ActionType, to: ActionType, other: string)
    requires DistinctKeys(c) && from != to
    ensures var c' := ChangeType(c, from, to);
      && DistinctKeys(c')
      && ReadType(c') == Some(to)
      && (Owns(from, other) ==> Get(c', other).None?)
      && (!Owns(from, other) && other != TYPE ==> Get(c', other) == Get(c, other))
      && (var known := {TYPE} + set key | key in OwnedKeys(from); Except(c', known) == Except(c, known))
  {
    var written := WriteType(c, to);
    var known := {TYPE} + set key | key in OwnedKeys(from);
    TypeIsNotOwned(from);
    if to == Invalid {
      RemoveMeaning(c, TYPE, other);
    } else {
      PutMeaning(c, TYPE, TypeName(to), other);
      TypeNamesRoundTrip(to);
    }
    EditsKeepOthers(c, TYPE, if to == Invalid then "" else TypeName(to), known);
    RemoveAllMeaning(written, OwnedKeys(from), other, known);
    RemoveAllMeaning(written, OwnedKeys(from), TYPE, known);
  }

  // ---- the details -----------------------------------------------------------------------

  /** How numbers are printed and read; both directions belong to the YAML library. */
  datatype Codec = Codec(
    formatInt: int -> string, scanInt: string -> Option<int>,
    formatReal: real -> string, scanReal: string -> Option<real>)

  /** Only finite binary32 numbers are printed. */
  ghost predicate IsFloat(v: real) {
    exists f: Binary32.Float :: f.Finite() && f.Val() == v
  }

  /** Every number that the program prints is read back as it was. */
  ghost predicate ExactCodec(k: Codec) {
    && (forall v: int :: -0x8000_0000 <= v < 0x8000_0000 ==> k.scanInt(k.formatInt(v)) == Some(v))
    && (forall v: real :: IsFloat(v) ==> k.scanReal(k.formatReal(v)) == Some(v))
  }

  predicate AbsoluteRange(a: Axis, v: int) {
    (if a == X || a == Y then -0x4000 else 0) <= v <= 0x4000
  }

  function AbsoluteField(k: Codec, a: Axis): NumberField<int> {
    NumberField(AxisKey(a), (match a case X => 0 case Y => 0 case Width => 640 case Height => 400),
                v => AbsoluteRange(a, v), k.formatInt, k.scanInt)
  }

  predicate RelativeRange(v: real) {
    0.0 <= v <= 1.0
  }

  function RelativeField(k: Codec, a: Axis): NumberField<real> {
    NumberField(AxisKey(a), if a == X || a == Y then 0.5 else 1.0, RelativeRange, k.formatReal, k.scanReal)
  }

  predicate IdRange(v: int) {
    1 <= v <= 16
  }

  /** Zero means that no monitor is chosen; it is never stored. */
  function IdField(k: Codec): NumberField<int> {
    NumberField(MONITOR_ID, 0, IdRange, k.formatInt, k.scanInt)
  }

  /** The documented keys, with their defaults and ranges; the position may also be negative. */
  lemma AbsoluteNumbers(k: Codec, c: Children, a: Axis, v: int)
    ensures ReadNumber(AbsoluteField(k, a), c) == Some(v) <==>
      var (key, default, least) := match a
        case X => ("x", 0, -16384)
        case Y => ("y", 0, -16384)
        case Width => ("width", 640, 0)
        case Height => ("height", 400, 0);
      match Get(c, key)
      case None => v == default
      case Some(Container(_)) => false
      case Some(Plain(text)) => k.scanInt(text) == Some(v) && least <= v <= 16384
  {
  }

  lemma RelativeNumbers(k: Codec, c: Children, a: Axis, v: real)
    ensures ReadNumber(RelativeField(k, a), c) == Some(v) <==>
      var (key, default) := match a
        case X => ("x", 0.5)
        case Y => ("y", 0.5)
        case Width => ("width", 1.0)
        case Height => ("height", 1.0);
      match Get(c, key)
      case None => v == default
      case Some(Container(_)) => false
      case Some(Plain(text)) => k.scanReal(text) == Some(v) && 0.0 <= v <= 1.0
  {
  }

  /** No number reads as zero, which stands for the primary monitor and cannot be written. */
  lemma MonitorNumbers(k: Codec, c: Children, v: int)
    ensures ReadNumber(IdField(k), c) == Some(v) <==>
      match Get(c, "id")
      case None => v == 0
      case Some(Container(_)) => false
      case Some(Plain(text)) => k.scanInt(text) == Some(v) && 1 <= v <= 16
  {
  }

  /** The documented type names, in any case. */
  lemma TypesRead(c: Children)
    ensures ReadType(c) == match Get(c, "type")
      case None => Some(Invalid)
      case Some(Container(_)) => None
      case Some(Plain(text)) =>
        Some(if SameIgnoringCase(text, "absolute_move_and_resize") then AbsoluteMoveAndResize
             else if SameIgnoringCase(text, "relative_move_and_resize") then RelativeMoveAndResize else Invalid)
  {
  }

  datatype Bounds<T> = Bounds(x: T, y: T, w: T, h: T) {
    function At(a: Axis): T {
      match a case X => x case Y => y case Width => w case Height => h
    }

    function With(a: Axis, v: T): Bounds<T> {
      match a
      case X => this.(x := v)
      case Y => this.(y := v)
      case Width => this.(w := v)
      case Height => this.(h := v)
    }
  }

  /** The cached state of a live detail object. */
  datatype Detail =
    | NoDetail
    | Absolute(bounds: Bounds<int>)
    | Relative(id: int, name: Pattern, relative: Bounds<real>)

  /** A fresh detail object read from the node would have this state. */
  ghost predicate Fresh(k: Codec, c: Children, d: Detail) {
    FreshNumbers(k, c, d) && (d.Relative? ==> ReadPatternAt(Get(c, MONITOR_NAME)) == Some(d.name))
  }

  ghost predicate FreshNumbers(k: Codec, c: Children, d: Detail) {
    match d
    case NoDetail => true
    case Absolute(b) => forall a :: ReadNumber(AbsoluteField(k, a), c) == Some(b.At(a))
    case Relative(id, _, b) =>
      && ReadNumber(IdField(k), c) == Some(id)
      && forall a :: ReadNumber(RelativeField(k, a), c) == Some(b.At(a))
  }

  /** A name as it stands in the node; without a text there, it is empty. */
  predicate NameStands(c: Children, name: Pattern) {
    match Get(c, MONITOR_NAME)
    case None => name == NO_PATTERN
    case Some(v) => v == Plain(WritePattern(name))
  }

  /** The state of an action with at most one live detail object. */
  datatype Doc = Doc(children: Children, kind: ActionType, detail: Detail)

  /** Reading the node anew would give the live objects. */
  ghost predicate Agrees(k: Codec, d: Doc) {
    WellTyped(d) && Fresh(k, d.children, d.detail)
  }

  /** The node holds what the live objects hold, the monitor name as it is spelled. */
  ghost predicate Consistent(k: Codec, d: Doc) {
    && WellTyped(d)
    && FreshNumbers(k, d.children, d.detail)
    && (d.detail.Relative? ==> NameStands(d.children, d.detail.name))
  }

  predicate WellTyped(d: Doc) {
    && DistinctKeys(d.children)
    && ReadType(d.children) == Some(d.kind)
    && (d.detail.Absolute? ==> d.kind == AbsoluteMoveAndResize)
    && (d.detail.Relative? ==> d.kind == RelativeMoveAndResize)
  }

  /** Consistent objects agree with their node exactly when the monitor name survives the notation. */
  lemma AgreesMeansConsistent(k: Codec, d: Doc)
    ensures Agrees(k, d) <==> Consistent(k, d) && (d.detail.Relative? ==> CodecSafe(d.detail.name))
  {
    if d.detail.Relative? {
      ReadAfterWrite(d.detail.name);
      match Get(d.children, MONITOR_NAME)
      case Some(Plain(text)) => WriteAfterRead(text); ReadIsSafe(text);
      case _ =>
    }
  }

  // ---- an exact way to print --------------------------------------------------------------------

  function FormatUnary(v: int): string {
    if v < 0 then seq(-v, _ => '-') else seq(v, _ => '+')
  }

  function ScanUnary(text: string): (v: Option<int>) {
    if text != "" && text[0] == '-' then Some(-|text|) else Some(|text|)
  }

  /** A sign, then the significand and the exponent in unary. */
  function Spelling(f: Binary32.Float): string
    requires f.Finite()
  {
    [if f.neg then '-' else '+'] + seq(f.sig, _ => 's') + seq(f.exp - Binary32.MIN_EXP, _ => 'e')
  }

  lemma SpellingIsInjective(f: Binary32.Float, g: Binary32.Float)
    requires f.Finite() && g.Finite()
    ensures Spelling(f) == Spelling(g) ==> f == g
  {
    if f.sig < g.sig {
      SignificandDecides(f, g);
    } else if g.sig < f.sig {
      SignificandDecides(g, f);
    } else if f.neg != g.neg {
      assert Spelling(f)[0] != Spelling(g)[0];
    }
  }

  lemma SignificandDecides(f: Binary32.Float, g: Binary32.Float)
    requires f.Finite() && g.Finite() && f.sig < g.sig
    ensures Spelling(f) != Spelling(g)
  {
    assert Spelling(g)[1 + f.sig] == 's';
    assert |Spelling(f)| > 1 + f.sig ==> Spelling(f)[1 + f.sig] == 'e';
  }

  ghost function FormatFloat(v: real): string {
    if IsFloat(v) then
      var f: Binary32.Float :| f.Finite() && f.Val() == v;
      Spelling(f)
    else ""
  }

  ghost function ScanFloat(text: string): Option<real> {
    if exists f: Binary32.Float :: f.Finite() && Spelling(f) == text then
      var f: Binary32.Float :| f.Finite() && Spelling(f) == text;
      Some(f.Val())
    else None
  }

  lemma ScannedFloat(v: real)
    requires IsFloat(v)
    ensures ScanFloat(FormatFloat(v)) == Some(v)
  {
    var f: Binary32.Float :| f.Finite() && f.Val() == v && FormatFloat(v) == Spelling(f);
    var g: Binary32.Float :| g.Finite() && Spelling(g) == Spelling(f) && ScanFloat(Spelling(f)) == Some(g.Val());
    SpellingIsInjective(f, g);
  }

  /** There are such codecs, so the results that ask for one are about something. */
  lemma ExactCodecExists()
    ensures exists k :: ExactCodec(k)
  {
    var k := Codec(FormatUnary, ScanUnary, v => FormatFloat(v), text => ScanFloat(text));
    forall v: real | IsFloat(v)
      ensures k.scanReal(k.formatReal(v)) == Some(v)
    {
      ScannedFloat(v);
    }
    assert ExactCodec(k);
  }

  // ---- setters ------------------------------------------------------------------------------

  function SetAbsolute(k: Codec, d: Doc, a: Axis, v: int): Doc
    requires d.detail.Absolute?
  {
    d.(children := WriteNumber(AbsoluteField(k, a), d.children, d.detail.bounds.At(a), v),
       detail := Absolute(d.detail.bounds.With(a, v)))
  }

  function SetRelative(k: Codec, d: Doc, a: Axis, v: real): Doc
    requires d.detail.Relative?
  {
    d.(children := WriteNumber(RelativeField(k, a), d.children, d.detail.relative.At(a), v),
       detail := d.detail.(relative := d.detail.relative.With(a, v)))
  }

  function SetId(k: Codec, d: Doc, v: int): Doc
    requires d.detail.Relative?
  {
    d.(children := if v == 0 then Remove(d.children, MONITOR_ID)
                   else WriteNumber(IdField(k), d.children, d.detail.id, v),
       detail := d.detail.(id := v))
  }

  function SetName(d: Doc, p: Pattern): Doc
    requires d.detail.Relative?
  {
    d.(children := if d.detail.name == p then d.children else Put(d.children, MONITOR_NAME, WritePattern(p)),
       detail := d.detail.(name := p))
  }

  /** A type change leaves older detail objects behind. */
  function SetType(d: Doc, t: ActionType): Doc {
    if d.kind == t then d else Doc(ChangeType(d.children, d.kind, t), t, NoDetail)
  }

  /** Making a detail object reads the node; a parse error yields none. */
  function Open(k: Codec, d: Doc): Doc {
    match d.kind
    case Invalid => d.(detail := NoDetail)
    case AbsoluteMoveAndResize =>
      var x, y := ReadNumber(AbsoluteField(k, X), d.children), ReadNumber(AbsoluteField(k, Y), d.children);
      var w, h := ReadNumber(AbsoluteField(k, Width), d.children), ReadNumber(AbsoluteField(k, Height), d.children);
      if x.Some? && y.Some? && w.Some? && h.Some? then d.(detail := Absolute(Bounds(x.value, y.value, w.value, h.value)))
      else d.(detail := NoDetail)
    case RelativeMoveAndResize =>
      var x, y := ReadNumber(RelativeField(k, X), d.children), ReadNumber(RelativeField(k, Y), d.children);
      var w, h := ReadNumber(RelativeField(k, Width), d.children), ReadNumber(RelativeField(k, Height), d.children);
      var id, name := ReadNumber(IdField(k), d.children), ReadPatternAt(Get(d.children, MONITOR_NAME));
      if id.Some? && name.Some? && x.Some? && y.Some? && w.Some? && h.Some? then
        d.(detail := Relative(id.value, name.value, Bounds(x.value, y.value, w.value, h.value)))
      else d.(detail := NoDetail)
  }

  /** Opening yields the fresh detail object if there is one, and none otherwise. */
  lemma OpenAgrees(k: Codec, d: Doc)
    requires WellTyped(d)
    ensures Agrees(k, Open(k, d)) && Open(k, d).children == d.children && Open(k, d).kind == d.kind
    ensures Open(k, d).detail.NoDetail? && d.kind != Invalid ==> forall detail :: OfKind(detail, d.kind) ==> !Fresh(k, d.children, detail)
  {
    if d.kind != Invalid {
      forall detail: Detail | OfKind(detail, d.kind) && Fresh(k, d.children, detail)
        ensures !Open(k, d).detail.NoDetail?
      {
        FreshFieldsRead(k, d.children, detail);
      }
    }
  }

  predicate OfKind(d: Detail, t: ActionType) {
    match d
    case NoDetail => t == Invalid
    case Absolute(_) => t == AbsoluteMoveAndResize
    case Relative(_, _, _) => t == RelativeMoveAndResize
  }

  lemma FreshFieldsRead(k: Codec, c: Children, detail: Detail)
    requires Fresh(k, c, detail)
    ensures detail.Absolute? ==>
      && ReadNumber(AbsoluteField(k, X), c).Some? && ReadNumber(AbsoluteField(k, Y), c).Some?
      && ReadNumber(AbsoluteField(k, Width), c).Some? && ReadNumber(AbsoluteField(k, Height), c).Some?
    ensures detail.Relative? ==>
      && ReadNumber(RelativeField(k, X), c).Some? && ReadNumber(RelativeField(k, Y), c).Some?
      && ReadNumber(RelativeField(k, Width), c).Some? && ReadNumber(RelativeField(k, Height), c).Some?
  {
  }

  lemma NumberDependsOnKey<T>(f: NumberField<T>, c: Children, c': Children)
    requires Get(c, f.key) == Get(c', f.key)
    ensures ReadNumber(f, c) == ReadNumber(f, c')
  {
  }

  lemma ZeroIsFloat()
    ensures IsFloat(0.0)
  {
    Binary32.LdexpLinear(0.0, 0.0, Binary32.MIN_EXP);
    var zero := Binary32.Float(false, 0, Binary32.MIN_EXP);
    assert zero.Finite() && zero.Val() == 0.0;
  }

  lemma FieldsAreExact(k: Codec, a: Axis, n: int, v: real)
    requires ExactCodec(k) && -0x8000_0000 <= n < 0x8000_0000 && IsFloat(v)
    ensures Exact(AbsoluteField(k, a), n) && Exact(IdField(k), n) && Exact(RelativeField(k, a), v)
  {
    hide IsFloat;
  }

  lemma SetAbsoluteAgrees(k: Codec, d: Doc, a: Axis, v: int)
    requires ExactCodec(k) && Consistent(k, d) && d.detail.Absolute? && AbsoluteRange(a, v)
    ensures Agrees(k, SetAbsolute(k, d, a, v))
  {
    var f := AbsoluteField(k, a);
    var d' := SetAbsolute(k, d, a, v);
    KeysDiffer(a, a);
    ZeroIsFloat();
    FieldsAreExact(k, a, v, 0.0);
    WrittenNumberReads(f, d.children, d.detail.bounds.At(a), v);
    forall b: Axis
      ensures ReadNumber(AbsoluteField(k, b), d'.children) == Some(d'.detail.bounds.At(b))
    {
      KeysDiffer(a, b);
      if b != a {
        NumberDependsOnKey(AbsoluteField(k, b), d.children, d'.children);
      }
    }
  }

  lemma SetRelativeAgrees(k: Codec, d: Doc, a: Axis, v: real)
    requires ExactCodec(k) && Consistent(k, d) && d.detail.Relative? && RelativeRange(v) && IsFloat(v)
    ensures Consistent(k, SetRelative(k, d, a, v))
    ensures Agrees(k, SetRelative(k, d, a, v)) <==> Agrees(k, d)
  {
    var f := RelativeField(k, a);
    var d' := SetRelative(k, d, a, v);
    AgreesMeansConsistent(k, d);
    AgreesMeansConsistent(k, d');
    KeysDiffer(a, a);
    FieldsAreExact(k, a, 0, v);
    WrittenNumberReads(f, d.children, d.detail.relative.At(a), v);
    NumberDependsOnKey(IdField(k), d.children, d'.children);
    forall b: Axis
      ensures ReadNumber(RelativeField(k, b), d'.children) == Some(d'.detail.relative.At(b))
    {
      KeysDiffer(a, b);
      if b != a {
        NumberDependsOnKey(RelativeField(k, b), d.children, d'.children);
      }
    }
  }

  lemma RelativeFieldsUnaffected(k: Codec, c: Children, c': Children, b: Bounds<real>)
    requires forall a :: ReadNumber(RelativeField(k, a), c) == Some(b.At(a))
    requires forall a :: Get(c', AxisKey(a)) == Get(c, AxisKey(a))
    ensures forall a :: ReadNumber(RelativeField(k, a), c') == Some(b.At(a))
  {
    forall a: Axis
      ensures ReadNumber(RelativeField(k, a), c') == Some(b.At(a))
    {
      NumberDependsOnKey(RelativeField(k, a), c, c');
    }
  }

  lemma SetIdAgrees(k: Codec, d: Doc, v: int)
    requires ExactCodec(k) && Consistent(k, d) && d.detail.Relative? && (v == 0 || IdRange(v))
    ensures Consistent(k, SetId(k, d, v))
    ensures Agrees(k, SetId(k, d, v)) <==> Agrees(k, d)
  {
    var d' := SetId(k, d, v);
    AgreesMeansConsistent(k, d);
    AgreesMeansConsistent(k, d');
    forall key: string
      ensures DistinctKeys(d'.children)
      ensures key != MONITOR_ID ==> Get(d'.children, key) == Get(d.children, key)
      ensures ReadNumber(IdField(k), d'.children) == Some(v)
    {
      if v == 0 {
        RemoveMeaning(d.children, MONITOR_ID, key);
      } else {
        ZeroIsFloat();
        FieldsAreExact(k, X, v, 0.0);
        WrittenNumberReads(IdField(k), d.children, d.detail.id, v);
      }
    }
    KeysDiffer(X, Y);
    forall a: Axis
      ensures Get(d'.children, AxisKey(a)) == Get(d.children, AxisKey(a))
    {
      KeysDiffer(a, a);
    }
    RelativeFieldsUnaffected(k, d.children, d'.children, d.detail.relative);
  }

  lemma SetNameAgreesExactly(k: Codec, d: Doc, p: Pattern)
    requires Consistent(k, d) && d.detail.Relative?
    ensures Consistent(k, SetName(d, p))
    ensures Agrees(k, SetName(d, p)) <==> CodecSafe(p)
  {
    var d' := SetName(d, p);
    forall key: string
      ensures DistinctKeys(d'.children)
      ensures key != MONITOR_NAME ==> Get(d'.children, key) == Get(d.children, key)
      ensures p != d.detail.name ==> Get(d'.children, MONITOR_NAME) == Some(Plain(WritePattern(p)))
    {
      PutMeaning(d.children, MONITOR_NAME, WritePattern(p), key);
    }
    AgreesMeansConsistent(k, d');
    KeysDiffer(X, Y);
    NumberDependsOnKey(IdField(k), d.children, d'.children);
    forall a: Axis
      ensures Get(d'.children, AxisKey(a)) == Get(d.children, AxisKey(a))
    {
      KeysDiffer(a, a);
    }
    RelativeFieldsUnaffected(k, d.children, d'.children, d.detail.relative);
  }

  lemma SetTypeAgrees(k: Codec, d: Doc, t: ActionType)
    requires Consistent(k, d)
    ensures Consistent(k, SetType(d, t))
    ensures d.kind != t ==> Agrees(k, SetType(d, t))
  {
    if d.kind != t {
      ChangeTypeMeaning(d.children, d.kind, t, TYPE);
    }
  }

  /** A detail object made right after the type changed has default bounds. */
  lemma BoundsAfterTypeChange(k: Codec, d: Doc)
    requires WellTyped(d) && d.kind != Invalid
    ensures d.kind != RelativeMoveAndResize ==>
      var d' := SetType(d, RelativeMoveAndResize);
      Open(k, d').detail.Relative? ==> Open(k, d').detail.relative == Bounds(0.5, 0.5, 1.0, 1.0)
    ensures d.kind != AbsoluteMoveAndResize ==>
      Open(k, SetType(d, AbsoluteMoveAndResize)).detail == Absolute(Bounds(0, 0, 640, 400))
  {
    var t := if d.kind == AbsoluteMoveAndResize then RelativeMoveAndResize else AbsoluteMoveAndResize;
    TypeIsNotOwned(d.kind);
    hide ReadNumber, Open, Owns, OwnedKeys, AxisKey;
    var d' := SetType(d, t);
    forall a: Axis
      ensures Get(d'.children, AxisKey(a)).None?
    {
      ChangeTypeMeaning(d.children, d.kind, t, AxisKey(a));
    }
    hide SetType;
    OpenWithoutBounds(k, d');
  }

  /** Bounds that are not in the node are read as their defaults. */
  lemma OpenWithoutBounds(k: Codec, d: Doc)
    requires forall a :: Get(d.children, AxisKey(a)).None?
    ensures d.kind == RelativeMoveAndResize && Open(k, d).detail.Relative? ==>
      Open(k, d).detail.relative == Bounds(0.5, 0.5, 1.0, 1.0)
    ensures d.kind == AbsoluteMoveAndResize ==> Open(k, d).detail == Absolute(Bounds(0, 0, 640, 400))
  {
    hide Get;
    assert Get(d.children, AxisKey(X)).None? && Get(d.children, AxisKey(Y)).None?;
    assert Get(d.children, AxisKey(Width)).None? && Get(d.children, AxisKey(Height)).None?;
  }

  // ---- runs -----------------------------------------------------------------------------------

  datatype Op =
    | ChangeKind(kind: ActionType)
    | MakeDetail
    | PutAbsolute(axis: Axis, value: int)
    | PutRelative(axis: Axis, fraction: real)
    | PutId(id: int)
    | PutName(name: Pattern)

  /** What the setters demand of their callers. */
  ghost predicate Admissible(op: Op) {
    match op
    case ChangeKind(_) => true
    case MakeDetail => true
    case PutAbsolute(a, v) => AbsoluteRange(a, v)
    case PutRelative(_, v) => RelativeRange(v) && IsFloat(v)
    case PutId(v) => v == 0 || IdRange(v)
    case PutName(_) => true
  }

  /** Setters of a detail object that does not exist are no calls. */
  function Apply(k: Codec, d: Doc, op: Op): Doc {
    match op
    case ChangeKind(t) => SetType(d, t)
    case MakeDetail => Open(k, d)
    case PutAbsolute(a, v) => if d.detail.Absolute? then SetAbsolute(k, d, a, v) else d
    case PutRelative(a, v) => if d.detail.Relative? then SetRelative(k, d, a, v) else d
    case PutId(v) => if d.detail.Relative? then SetId(k, d, v) else d
    case PutName(p) => if d.detail.Relative? then SetName(d, p) else d
  }

  function Run(k: Codec, d: Doc, ops: seq<Op>): Doc {
    if ops == [] then d else Apply(k, Run(k, d, ops[..|ops| - 1]), ops[|ops| - 1])
  }

  /** After any sequence of type changes and setters, with safe names and others, the live objects
      say what fresh objects read from the node would say exactly when the monitor name then held
      survives the notation. */
  lemma {:induction false} RunAgreesExactly(k: Codec, d: Doc, ops: seq<Op>)
    requires ExactCodec(k) && Consistent(k, d)
    requires forall op :: op in ops ==> Admissible(op)
    ensures var r := Run(k, d, ops);
      && Consistent(k, r)
      && (Agrees(k, r) <==> (r.detail.Relative? ==> CodecSafe(r.detail.name)))
  {
    hide Consistent, Agrees, WellTyped, Open, SetType, SetAbsolute, SetRelative, SetId, SetName, ExactCodec, CodecSafe, IsFloat;
    AgreesMeansConsistent(k, Run(k, d, ops));
    if ops != [] {
      RunAgreesExactly(k, d, ops[..|ops| - 1]);
      var before, op := Run(k, d, ops[..|ops| - 1]), ops[|ops| - 1];
      assert op in ops;
      ApplyKeepsConsistent(k, before, op);
    }
  }

  lemma ApplyKeepsConsistent(k: Codec, d: Doc, op: Op)
    requires ExactCodec(k) && Consistent(k, d) && Admissible(op)
    ensures Consistent(k, Apply(k, d, op))
  {
    assert WellTyped(d);
    AgreesMeansConsistent(k, Apply(k, d, op));
    hide Consistent, Agrees, WellTyped, Open, SetType, SetAbsolute, SetRelative, SetId, SetName, ExactCodec, CodecSafe, IsFloat;
    match op {
      case ChangeKind(t) => SetTypeAgrees(k, d, t);
      case MakeDetail => OpenAgrees(k, d);
      case PutAbsolute(a, v) => if d.detail.Absolute? { SetAbsoluteAgrees(k, d, a, v); }
      case PutRelative(a, v) => if d.detail.Relative? { SetRelativeAgrees(k, d, a, v); }
      case PutId(v) => if d.detail.Relative? { SetIdAgrees(k, d, v); }
      case PutName(p) => if d.detail.Relative? { SetNameAgreesExactly(k, d, p); }
    }
  }

  /** Every key that some type owns, and the type itself. */
  function KnownKeys(): set<string> {
    {"type", "id", "name", "x", "y", "width", "height"}
  }

  lemma OwnedAreKnown(t: ActionType, a: Axis)
    ensures forall key :: key in OwnedKeys(t) ==> key in KnownKeys()
    ensures AxisKey(a) in KnownKeys() && TYPE in KnownKeys() && MONITOR_ID in KnownKeys() && MONITOR_NAME in KnownKeys()
  {
  }

  lemma TypeChangeKeepsUnknown(c: Children, from: ActionType, to: ActionType)
    requires DistinctKeys(c)
    ensures DistinctKeys(ChangeType(c, from, to))
    ensures Except(ChangeType(c, from, to), KnownKeys()) == Except(c, KnownKeys())
  {
    hide KnownKeys, OwnedKeys, TypeName, DistinctKeys, Except, Put, Remove, RemoveAll;
    var text := if to == Invalid then "" else TypeName(to);
    OwnedAreKnown(from, X);
    PutKeepsUnknown(c, TYPE, text);
    RemoveAllMeaning(WriteType(c, to), OwnedKeys(from), TYPE, KnownKeys());
  }

  lemma ApplyKeepsUnknown(k: Codec, d: Doc, op: Op)
    requires DistinctKeys(d.children)
    ensures DistinctKeys(Apply(k, d, op).children)
    ensures Except(Apply(k, d, op).children, KnownKeys()) == Except(d.children, KnownKeys())
  {
    hide KnownKeys, OwnedKeys, AxisKey, DistinctKeys, Except, Put, Remove, ChangeType;
    match op
    case ChangeKind(t) => TypeChangeKeepsUnknown(d.children, d.kind, t);
    case MakeDetail =>
    case PutAbsolute(a, v) => OwnedAreKnown(Invalid, a); PutKeepsUnknown(d.children, AxisKey(a), k.formatInt(v));
    case PutRelative(a, v) => OwnedAreKnown(Invalid, a); PutKeepsUnknown(d.children, AxisKey(a), k.formatReal(v));
    case PutId(v) => OwnedAreKnown(Invalid, X); PutKeepsUnknown(d.children, MONITOR_ID, k.formatInt(v));
    case PutName(p) => OwnedAreKnown(Invalid, X); PutKeepsUnknown(d.children, MONITOR_NAME, WritePattern(p));
  }

  lemma PutKeepsUnknown(c: Children, key: string, text: string)
    requires DistinctKeys(c) && key in KnownKeys()
    ensures DistinctKeys(Put(c, key, text)) && DistinctKeys(Remove(c, key))
    ensures Except(Put(c, key, text), KnownKeys()) == Except(c, KnownKeys())
    ensures Except(Remove(c, key), KnownKeys()) == Except(c, KnownKeys())
  {
    PutMeaning(c, key, text, key);
    RemoveMeaning(c, key, key);
    EditsKeepOthers(c, key, text, KnownKeys());
  }

  /** No call touches the value or the order of unknown children. */
  lemma {:induction false} RunKeepsUnknown(k: Codec, d: Doc, ops: seq<Op>)
    requires DistinctKeys(d.children)
    ensures DistinctKeys(Run(k, d, ops).children)
    ensures Except(Run(k, d, ops).children, KnownKeys()) == Except(d.children, KnownKeys())
  {
    if ops != [] {
      RunKeepsUnknown(k, d, ops[..|ops| - 1]);
      ApplyKeepsUnknown(k, Run(k, d, ops[..|ops| - 1]), ops[|ops| - 1]);
    }
  }

  // ---- the objects ------------------------------------------------------------------------------

  class Action {
    const node: SettingsNode
    var kind: ActionType

    /** Null stands for the parse error of a type that is not a text. */
    static method Make(node: SettingsNode) returns (a: Action?)
      ensures a == null <==> ReadType(node.children).None?
      ensures a != null ==> a.node == node && ReadType(node.children) == Some(a.kind)
    {
      if ReadType(node.children).None? {
        return null;
      }
      a := new Action(node);
    }

    /** None stands for the invalid argument error, a detail of another type; null for a parse error. */
    method AsAbsolute(codec: Codec) returns (r: Option<AbsoluteDetail?>)
      ensures r.None? <==> kind != AbsoluteMoveAndResize
      ensures r.Some? ==>
        var d := Open(codec, Doc(node.children, kind, NoDetail));
        if d.detail.NoDetail? then r.value == null else r.value != null && r.value.node == node && r.value.State() == d
    {
      if kind != AbsoluteMoveAndResize {
        return None;
      }
      if Open(codec, Doc(node.children, kind, NoDetail)).detail.NoDetail? {
        return Some(null);
      }
      var detail := new AbsoluteDetail(node, codec);
      r := Some(detail);
    }

    method AsRelative(codec: Codec) returns (r: Option<RelativeDetail?>)
      ensures r.None? <==> kind != RelativeMoveAndResize
      ensures r.Some? ==>
        var d := Open(codec, Doc(node.children, kind, NoDetail));
        if d.detail.NoDetail? then r.value == null else r.value != null && r.value.node == node && r.value.State() == d
    {
      if kind != RelativeMoveAndResize {
        return None;
      }
      if Open(codec, Doc(node.children, kind, NoDetail)).detail.NoDetail? {
        return Some(null);
      }
      var detail := new RelativeDetail(node, codec);
      r := Some(detail);
    }

    constructor (node: SettingsNode)
      requires ReadType(node.children).Some?
      ensures this.node == node && ReadType(node.children) == Some(kind)
    {
      this.node := node;
      this.kind := ReadType(node.children).value;
    }

    method SetKind(t: ActionType)
      modifies this, node
      ensures Doc(node.children, kind, NoDetail) == SetType(Doc(old(node.children), old(kind), NoDetail), t)
    {
      if kind == t {
        return;
      }
      if t == Invalid {
        node.children := Remove(node.children, TYPE);
      } else {
        node.children := Put(node.children, TYPE, TypeName(t));
      }
      var keys := OwnedKeys(kind);
      for i := 0 to |keys|
        invariant RemoveAll(node.children, keys[i..]) == RemoveAll(WriteType(old(node.children), t), keys)
      {
        assert keys[i..][1..] == keys[i + 1..];
        node.children := Remove(node.children, keys[i]);
      }
      kind := t;
    }
  }

  class AbsoluteDetail {
    const node: SettingsNode
    const codec: Codec
    var bounds: Bounds<int>

    ghost function State(): Doc
      reads this, node
    {
      Doc(node.children, AbsoluteMoveAndResize, Absolute(bounds))
    }

    constructor (node: SettingsNode, codec: Codec)
      requires Open(codec, Doc(node.children, AbsoluteMoveAndResize, NoDetail)).detail.Absolute?
      ensures this.node == node && this.codec == codec
      ensures State() == Open(codec, Doc(node.children, AbsoluteMoveAndResize, NoDetail))
    {
      this.node, this.codec := node, codec;
      this.bounds := Bounds(
        ReadNumber(AbsoluteField(codec, X), node.children).value,
        ReadNumber(AbsoluteField(codec, Y), node.children).value,
        ReadNumber(AbsoluteField(codec, Width), node.children).value,
        ReadNumber(AbsoluteField(codec, Height), node.children).value);
    }

    method Set(a: Axis, v: int)
      requires AbsoluteRange(a, v)
      modifies this, node
      ensures State() == SetAbsolute(codec, old(State()), a, v)
    {
      if bounds.At(a) != v {
        node.children := Put(node.children, AxisKey(a), codec.formatInt(v));
        bounds := bounds.With(a, v);
      }
    }
  }

  class RelativeDetail {
    const node: SettingsNode
    const codec: Codec
    var id: int
    var name: Pattern
    var bounds: Bounds<real>

    ghost function State(): Doc
      reads this, node
    {
      Doc(node.children, RelativeMoveAndResize, Relative(id, name, bounds))
    }

    constructor (node: SettingsNode, codec: Codec)
      requires Open(codec, Doc(node.children, RelativeMoveAndResize, NoDetail)).detail.Relative?
      ensures this.node == node && this.codec == codec
      ensures State() == Open(codec, Doc(node.children, RelativeMoveAndResize, NoDetail))
    {
      this.node, this.codec := node, codec;
      this.id := ReadNumber(IdField(codec), node.children).value;
      this.name := ReadPatternAt(Get(node.children, MONITOR_NAME)).value;
      this.bounds := Bounds(
        ReadNumber(RelativeField(codec, X), node.children).value,
        ReadNumber(RelativeField(codec, Y), node.children).value,
        ReadNumber(RelativeField(codec, Width), node.children).value,
        ReadNumber(RelativeField(codec, Height), node.children).value);
    }

    method SetMonitorId(v: int)
      requires v == 0 || IdRange(v)
      modifies this, node
      ensures State() == SetId(codec, old(State()), v)
    {
      if v == 0 {
        node.children := Remove(node.children, MONITOR_ID);
        id := v;
        return;
      }
      if id != v {
        node.children := Put(node.children, MONITOR_ID, codec.formatInt(v));
        id := v;
      }
    }

    method SetMonitorName(p: Pattern)
      modifies this, node
      ensures State() == SetName(old(State()), p)
    {
      if name != p {
        node.children := Put(node.children, MONITOR_NAME, WritePattern(p));
        name := p;
      }
    }

    method Set(a: Axis, v: real)
      requires RelativeRange(v)
      modifies this, node
      ensures State() == SetRelative(codec, old(State()), a, v)
    {
      if bounds.At(a) != v {
        node.children := Put(node.children, AxisKey(a), codec.formatReal(v));
        bounds := bounds.With(a, v);
      }
    }
  }
}
