/** Settings objects that cache what their YAML node says, and write through to it. */
module SettingsTree {
  import opened Wrappers
  import opened MatchPattern

  // ---- map nodes ---------------------------------------------------------------------

  datatype Value = Plain(text: string) | Container(id: nat)

  /** Keyed children in document order. */
  type Children = seq<(string, Value)>

  function Get(c: Children, key: string): Option<Value> {
    if c == [] then None else if c[0].0 == key then Some(c[0].1) else Get(c[1..], key)
  }

  /** Overwrites the child, or appends it. */
  function Put(c: Children, key: string, text: string): Children {
    if c == [] then [(key, Plain(text))]
    else if c[0].0 == key then [(key, Plain(text))] + c[1..]
    else [c[0]] + Put(c[1..], key, text)
  }

  function Remove(c: Children, key: string): Children {
    if c == [] then [] else if c[0].0 == key then c[1..] else [c[0]] + Remove(c[1..], key)
  }

  /** Keys of a map are unique (section 3.2.1.1 of YAML 1.2). */
  predicate DistinctKeys(c: Children) {
    c == [] || (Get(c[1..], c[0].0).None? && DistinctKeys(c[1..]))
  }

  /** The children whose keys are not among `keys`. */
  function Except(c: Children, keys: set<string>): Children {
    if c == [] then [] else (if c[0].0 in keys then [] else [c[0]]) + Except(c[1..], keys)
  }

  lemma {:induction false} PutMeaning(c: Children, key: string, text: string, other: string)
    ensures Get(Put(c, key, text), key) == Some(Plain(text))
    ensures other != key ==> Get(Put(c, key, text), other) == Get(c, other)
    ensures DistinctKeys(c) ==> DistinctKeys(Put(c, key, text))
  {
    if c != [] && c[0].0 != key {
      PutMeaning(c[1..], key, text, other);
      PutMeaning(c[1..], key, text, c[0].0);
    }
  }

  lemma {:induction false} RemoveMeaning(c: Children, key: string, other: string)
    requires DistinctKeys(c)
    ensures Get(Remove(c, key), key).None?
    ensures other != key ==> Get(Remove(c, key), other) == Get(c, other)
    ensures DistinctKeys(Remove(c, key))
  {
    if c != [] && c[0].0 != key {
      RemoveMeaning(c[1..], key, other);
      RemoveMeaning(c[1..], key, c[0].0);
    }
  }

  lemma {:induction false} EditsKeepOthers(c: Children, key: string, text: string, keys: set<string>)
    requires key in keys
    ensures Except(Put(c, key, text), keys) == Except(c, keys)
    ensures Except(Remove(c, key), keys) == Except(c, keys)
  {
    if c != [] && c[0].0 != key {
      EditsKeepOthers(c[1..], key, text, keys);
    }
  }

  /** The node object that settings objects share. */
  class SettingsNode {
    var children: Children

    constructor (children: Children)
      ensures this.children == children
    {
      this.children := children;
    }
  }

  // ---- filters ----------------------------------------------------------------------------

  datatype FilterKey = ProcessName | WindowClass | WindowTitle

  function KeyText(k: FilterKey): string {
    match k
    case ProcessName => "process"
    case WindowClass => "class"
    case WindowTitle => "title"
  }

  lemma KeyTextsDiffer(a: FilterKey, b: FilterKey)
    ensures KeyText(a) == KeyText(b) <==> a == b
  {
    assert "process"[0] == 'p' && "class"[0] == 'c' && "title"[0] == 't';
  }

  /** None stands for the parse error. */
  function ReadPatternAt(v: Option<Value>): Option<Pattern> {
    match v
    case None => Some(NO_PATTERN)
    case Some(Plain(text)) => Some(ReadPattern(text))
    case Some(Container(_)) => None
  }

  /** The empty pattern is written by removing the key. */
  function WriteFilterPattern(c: Children, key: string, p: Pattern): Children {
    if p == NO_PATTERN then Remove(c, key) else Put(c, key, WritePattern(p))
  }

  lemma WrittenPatternReads(c: Children, key: string, p: Pattern)
    requires DistinctKeys(c)
    ensures ReadPatternAt(Get(WriteFilterPattern(c, key, p), key)) == Some(p) <==> CodecSafe(p)
  {
    PutMeaning(c, key, WritePattern(p), key);
    RemoveMeaning(c, key, key);
    ReadAfterWrite(p);
  }

  datatype FilterState = FilterState(children: Children, process: Pattern, windowClass: Pattern, title: Pattern) {
    function Live(k: FilterKey): Pattern {
      match k
      case ProcessName => process
      case WindowClass => windowClass
      case WindowTitle => title
    }

    function With(k: FilterKey, p: Pattern): FilterState {
      var c := WriteFilterPattern(children, KeyText(k), p);
      match k
      case ProcessName => this.(children := c, process := p)
      case WindowClass => this.(children := c, windowClass := p)
      case WindowTitle => this.(children := c, title := p)
    }

    /** A fresh filter read from the node has the live value. */
    predicate Agrees(k: FilterKey) {
      ReadPatternAt(Get(children, KeyText(k))) == Some(Live(k))
    }

    ghost predicate Valid() {
      DistinctKeys(children) && forall k :: Agrees(k)
    }

    /** Each value stands in the document as it is written; an empty one may also stand
        there as an empty text. */
    ghost predicate Consistent() {
      DistinctKeys(children) && forall k :: Written(k)
    }

    ghost predicate Written(k: FilterKey) {
      var v := Get(children, KeyText(k));
      v == Spelled(Live(k)) || (Live(k) == NO_PATTERN && v == Some(Plain("")))
    }
  }

  /** A child as it is written when its setting has this value. */
  function Spelled(p: Pattern): Option<Value> {
    if p == NO_PATTERN then None else Some(Plain(WritePattern(p)))
  }

  /** A written value is read back exactly when it survives the notation. */
  lemma WrittenAgreesExactly(s: FilterState, k: FilterKey)
    requires s.Written(k)
    ensures s.Agrees(k) <==> CodecSafe(s.Live(k))
  {
    ReadAfterWrite(s.Live(k));
  }

  /** A filter that was just read is consistent, and a consistent one is valid exactly when
      all its values survive the notation. */
  lemma ValidMeansConsistent(s: FilterState)
    ensures s.Valid() <==> s.Consistent() && forall k :: CodecSafe(s.Live(k))
  {
    forall k: FilterKey
      ensures s.Agrees(k) <==> s.Written(k) && CodecSafe(s.Live(k))
    {
      if s.Written(k) {
        WrittenAgreesExactly(s, k);
      }
      if s.Agrees(k) {
        match Get(s.children, KeyText(k)) {
          case Some(Plain(text)) =>
            WriteAfterRead(text);
            ReadIsSafe(text);
          case _ =>
        }
      }
    }
  }

  /** In every state, a value that is set is written, and so read back exactly when it survives
      the notation, whatever was set before; the other values stand as they did. */
  lemma FilterSetAgreesExactly(s: FilterState, k: FilterKey, p: Pattern)
    requires DistinctKeys(s.children)
    ensures s.With(k, p).Live(k) == p && DistinctKeys(s.With(k, p).children)
    ensures s.With(k, p).Agrees(k) <==> CodecSafe(p)
    ensures forall j :: j != k ==> s.With(k, p).Live(j) == s.Live(j) && (s.With(k, p).Agrees(j) <==> s.Agrees(j))
    ensures s.Consistent() ==> s.With(k, p).Consistent()
    ensures Except(s.With(k, p).children, {KeyText(k)}) == Except(s.children, {KeyText(k)})
  {
    WrittenPatternReads(s.children, KeyText(k), p);
    TextAfterSet(s, k, p, KeyText(k));
    forall j: FilterKey
      ensures j != k ==> s.With(k, p).Live(j) == s.Live(j) && (s.With(k, p).Agrees(j) <==> s.Agrees(j))
      ensures j != k ==> (s.With(k, p).Written(j) <==> s.Written(j))
    {
      KeyTextsDiffer(j, k);
      TextAfterSet(s, k, p, KeyText(j));
    }
    EditsKeepOthers(s.children, KeyText(k), WritePattern(p), {KeyText(k)});
  }

  lemma TextAfterSet(s: FilterState, k: FilterKey, p: Pattern, key: string)
    requires DistinctKeys(s.children)
    ensures DistinctKeys(s.With(k, p).children)
    ensures Get(s.With(k, p).children, key) == if key == KeyText(k) then Spelled(p) else Get(s.children, key)
  {
    PutMeaning(s.children, KeyText(k), WritePattern(p), key);
    RemoveMeaning(s.children, KeyText(k), key);
  }

  class Filter {
    const node: SettingsNode
    var processImageName: Pattern
    var windowClass: Pattern
    var windowTitle: Pattern

    ghost function State(): FilterState
      reads this, node
    {
      FilterState(node.children, processImageName, windowClass, windowTitle)
    }

    /** Null stands for the parse error that a container raises where a text is expected. */
    static method Make(node: SettingsNode) returns (f: Filter?)
      requires DistinctKeys(node.children)
      ensures f == null <==> exists k :: ReadPatternAt(Get(node.children, KeyText(k))).None?
      ensures f != null ==> f.node == node && f.State().Valid()
    {
      var keys := [ProcessName, WindowClass, WindowTitle];
      for i := 0 to |keys|
        invariant forall j :: 0 <= j < i ==> ReadPatternAt(Get(node.children, KeyText(keys[j]))).Some?
      {
        if ReadPatternAt(Get(node.children, KeyText(keys[i]))).None? {
          return null;
        }
      }
      forall k: FilterKey
        ensures ReadPatternAt(Get(node.children, KeyText(k))).Some?
      {
        assert keys[0] == ProcessName && keys[1] == WindowClass && keys[2] == WindowTitle;
      }
      f := new Filter(node);
    }

    constructor (node: SettingsNode)
      requires DistinctKeys(node.children)
      requires forall k :: ReadPatternAt(Get(node.children, KeyText(k))).Some?
      ensures this.node == node && State().Valid()
    {
      this.node := node;
      processImageName := ReadPatternAt(Get(node.children, KeyText(ProcessName))).value;
      windowClass := ReadPatternAt(Get(node.children, KeyText(WindowClass))).value;
      windowTitle := ReadPatternAt(Get(node.children, KeyText(WindowTitle))).value;
    }

    method Set(k: FilterKey, p: Pattern)
      modifies this, node
      ensures State() == old(State()).With(k, p)
    {
      if p == NO_PATTERN {
        node.children := Remove(node.children, KeyText(k));
      } else {
        node.children := Put(node.children, KeyText(k), WritePattern(p));
      }
      match k {
        case ProcessName => processImageName := p;
        case WindowClass => windowClass := p;
        case WindowTitle => windowTitle := p;
      }
    }
  }

  // ---- numbers ------------------------------------------------------------------------------

  /** A number stored as text under a key, with the range and the default of its reader. */
  datatype NumberField<!T> = NumberField(
    key: string, default: T, inRange: T -> bool, format: T -> string, scan: string -> Option<T>)

  /** The text of a value is read back as that value. */
  predicate Exact<T(==)>(f: NumberField<T>, v: T) {
    f.scan(f.format(v)) == Some(v)
  }

  /** None stands for the parse error. */
  function ReadNumber<T>(f: NumberField<T>, c: Children): Option<T> {
    match Get(c, f.key)
    case None => Some(f.default)
    case Some(Container(_)) => None
    case Some(Plain(text)) =>
      match f.scan(text)
      case None => None
      case Some(v) => if f.inRange(v) then Some(v) else None
  }

  function WriteNumber<T(==)>(f: NumberField<T>, c: Children, cached: T, v: T): Children {
    if cached == v then c else Put(c, f.key, f.format(v))
  }

  lemma WrittenNumberReads<T>(f: NumberField<T>, c: Children, cached: T, v: T)
    requires Exact(f, v) && f.inRange(v) && DistinctKeys(c) && ReadNumber(f, c) == Some(cached)
    ensures DistinctKeys(WriteNumber(f, c, cached, v))
    ensures ReadNumber(f, WriteNumber(f, c, cached, v)) == Some(v)
    ensures forall key :: key != f.key ==> Get(WriteNumber(f, c, cached, v), key) == Get(c, key)
    ensures forall keys :: f.key in keys ==> Except(WriteNumber(f, c, cached, v), keys) == Except(c, keys)
  {
    forall key: string
      ensures Get(Put(c, f.key, f.format(v)), f.key) == Some(Plain(f.format(v)))
      ensures key != f.key ==> Get(Put(c, f.key, f.format(v)), key) == Get(c, key)
      ensures DistinctKeys(Put(c, f.key, f.format(v)))
    {
      PutMeaning(c, f.key, f.format(v), key);
    }
    forall keys | f.key in keys
      ensures Except(Put(c, f.key, f.format(v)), keys) == Except(c, keys)
    {
      EditsKeepOthers(c, f.key, f.format(v), keys);
    }
  }
}
