/** The trigger list of a rule: reading it, and editing it in place. */
module Triggers {
  import opened Wrappers
  import opened Text

  // ---- nodes ----------------------------------------------------------------------

  /** An entry of the list: a plain value, or anything else (`tag` tells others apart). */
  datatype Entry = Val(text: string) | Other(tag: nat)

  /** The child of a rule node. */
  datatype Child = Scalar(val: string) | Sequence(entries: seq<Entry>) | Opaque(id: nat)

  /** A map node: keyed children in document order. */
  type MapNode = seq<(string, Child)>

  const WHEN := "when"
  const WHERE := "where"
  const THEN := "then"
  const NAME := "name"

  function Find(n: MapNode, key: string): (i: nat)
    ensures i <= |n| && (i < |n| ==> n[i].0 == key)
    ensures forall j :: 0 <= j < i ==> n[j].0 != key
  {
    if n == [] || n[0].0 == key then 0 else 1 + Find(n[1..], key)
  }

  predicate HasChild(n: MapNode, key: string) {
    Find(n, key) < |n|
  }

  // ---- flags ------------------------------------------------------------------------

  datatype Flag = ApplicationStart | WindowFocus | WindowShow

  /** Every flag, in the order of the enumeration. */
  const ALL_FLAGS: seq<Flag> := [ApplicationStart, WindowFocus, WindowShow]

  function Name(f: Flag): string {
    match f
    case ApplicationStart => "init"
    case WindowFocus => "focus"
    case WindowShow => "show"
  }

  /** The flag that a spelling names, if any. */
  function ToFlag(text: string): Option<Flag> {
    if SameIgnoringCase(text, Name(ApplicationStart)) then Some(ApplicationStart)
    else if SameIgnoringCase(text, Name(WindowFocus)) then Some(WindowFocus)
    else if SameIgnoringCase(text, Name(WindowShow)) then Some(WindowShow)
    else None
  }

  /** A text names a flag exactly when it is the flag's name in any case. */
  lemma SpellingsNameFlags(text: string, f: Flag)
    ensures ToFlag(text) == Some(f) <==> SameIgnoringCase(text, Name(f))
  {
    assert Name(ApplicationStart)[0] == 'i' && Name(WindowFocus)[0] == 'f' && Name(WindowShow)[0] == 's';
    assert |Name(ApplicationStart)| > 0 && |Name(WindowFocus)| > 0 && |Name(WindowShow)| > 0;
    assert forall g :: SameIgnoringCase(text, Name(g)) ==> Lower(text[0]) == Lower(Name(g)[0]);
  }

  /** The documented names, in any case. */
  lemma FlagTexts(text: string, f: Flag)
    ensures ToFlag(text) == Some(f) <==>
      SameIgnoringCase(text, match f case ApplicationStart => "init" case WindowFocus => "focus" case WindowShow => "show")
  {
    SpellingsNameFlags(text, f);
  }

  lemma NamesRoundTrip(f: Flag)
    ensures ToFlag(Name(f)) == Some(f)
  {
    SpellingsNameFlags(Name(f), f);
  }

  /** The place of a flag in the enumeration. */
  function Position(f: Flag): (p: nat)
    ensures p < |ALL_FLAGS| && ALL_FLAGS[p] == f
    ensures forall i :: 0 <= i < |ALL_FLAGS| && ALL_FLAGS[i] == f ==> i == p
  {
    match f case ApplicationStart => 0 case WindowFocus => 1 case WindowShow => 2
  }

  function EntryFlag(e: Entry): Option<Flag> {
    if e.Val? then ToFlag(e.text) else None
  }

  // ---- reading -------------------------------------------------------------------------

  datatype ReadResult = Flags(flags: set<Flag>) | ParseError

  function FlagsOf(es: seq<Entry>): set<Flag> {
    set i | 0 <= i < |es| && EntryFlag(es[i]).Some? :: EntryFlag(es[i]).value
  }

  function ReadTriggers(n: MapNode): ReadResult {
    if !HasChild(n, WHEN) then Flags({})
    else match n[Find(n, WHEN)].1
      case Sequence(es) => Flags(FlagsOf(es))
      case Scalar(v) => Flags(FlagsOf([Val(v)]))
      case Opaque(_) => ParseError
  }

  /** A missing name is empty; None stands for the parse error of a container. */
  function ReadName(n: MapNode): Option<string> {
    if !HasChild(n, NAME) then Some("")
    else match n[Find(n, NAME)].1
      case Scalar(v) => Some(v)
      case _ => None
  }

  /** What a rule node itself must have; its filter and its action are read from their own nodes. */
  predicate Parses(n: MapNode) {
    HasChild(n, WHERE) && HasChild(n, THEN) && ReadName(n).Some? && ReadTriggers(n).Flags?
  }

  /** The accumulation loop over the children. */
  method ReadSequence(es: seq<Entry>) returns (flags: set<Flag>)
    ensures flags == FlagsOf(es)
  {
    flags := {};
    for i := 0 to |es|
      invariant flags == FlagsOf(es[..i])
    {
      assert FlagsOf(es[..i + 1]) == FlagsOf(es[..i]) + FlagsOf([es[i]]) by {
        assert es[..i + 1] == es[..i] + [es[i]];
        FlagsOfAppend(es[..i], [es[i]]);
      }
      if EntryFlag(es[i]).Some? {
        flags := flags + {EntryFlag(es[i]).value};
      }
    }
    assert es[..|es|] == es;
  }

  lemma FlagsOfAppend(a: seq<Entry>, b: seq<Entry>)
    ensures FlagsOf(a + b) == FlagsOf(a) + FlagsOf(b)
  {
    forall f | f in FlagsOf(b)
      ensures f in FlagsOf(a + b)
    {
      var i :| 0 <= i < |b| && EntryFlag(b[i]) == Some(f);
      assert (a + b)[|a| + i] == b[i];
    }
    forall f | f in FlagsOf(a)
      ensures f in FlagsOf(a + b)
    {
      var i :| 0 <= i < |a| && EntryFlag(a[i]) == Some(f);
      assert (a + b)[i] == a[i];
    }
  }

  // ---- what an edit must give -------------------------------------------------------------

  /** The entries that survive when the flags in `drop` are removed. */
  function Dropping(es: seq<Entry>, drop: set<Flag>): seq<Entry> {
    if es == [] then []
    else if EntryFlag(es[0]).Some? && EntryFlag(es[0]).value in drop then Dropping(es[1..], drop)
    else [es[0]] + Dropping(es[1..], drop)
  }

  function Unwanted(value: set<Flag>): set<Flag> {
    {ApplicationStart, WindowFocus, WindowShow} - value
  }

  /** The names appended for the first k flags: the wanted ones that were missing. */
  function Added(es: seq<Entry>, value: set<Flag>, k: nat): seq<Entry>
    requires k <= |ALL_FLAGS|
  {
    if k == 0 then []
    else
      var f := ALL_FLAGS[k - 1];
      Added(es, value, k - 1) + if f in value && f !in FlagsOf(es) then [Val(Name(f))] else []
  }

  function Edit(es: seq<Entry>, value: set<Flag>): seq<Entry> {
    Dropping(es, Unwanted(value)) + Added(es, value, |ALL_FLAGS|)
  }

  lemma {:induction false} DroppingAppend(a: seq<Entry>, b: seq<Entry>, drop: set<Flag>)
    ensures Dropping(a + b, drop) == Dropping(a, drop) + Dropping(b, drop)
  {
    if a == [] {
      assert a + b == b;
    } else {
      assert (a + b)[1..] == a[1..] + b;
      DroppingAppend(a[1..], b, drop);
    }
  }

  lemma {:induction false} DroppingTwice(es: seq<Entry>, d: set<Flag>, d': set<Flag>)
    ensures Dropping(Dropping(es, d), d') == Dropping(es, d + d')
  {
    if es != [] {
      DroppingTwice(es[1..], d, d');
      DroppingAppend([es[0]], Dropping(es[1..], d), d');
    }
  }

  lemma {:induction false} FlagsAfterDropping(es: seq<Entry>, drop: set<Flag>)
    ensures FlagsOf(Dropping(es, drop)) == FlagsOf(es) - drop
  {
    if es != [] {
      FlagsAfterDropping(es[1..], drop);
      FlagsOfAppend([es[0]], es[1..]);
      assert [es[0]] + es[1..] == es;
      FlagsOfAppend([es[0]], Dropping(es[1..], drop));
    }
  }

  lemma {:induction false} DroppingNothing(es: seq<Entry>, drop: set<Flag>)
    requires FlagsOf(es) !! drop
    ensures Dropping(es, drop) == es
  {
    if es != [] {
      assert [es[0]] + es[1..] == es;
      FlagsOfAppend([es[0]], es[1..]);
      if EntryFlag(es[0]).Some? {
        assert EntryFlag([es[0]][0]).value in FlagsOf([es[0]]);
      }
      DroppingNothing(es[1..], drop);
    }
  }

  lemma {:induction false} FlagsOfAdded(es: seq<Entry>, value: set<Flag>, k: nat)
    requires k <= |ALL_FLAGS|
    ensures FlagsOf(Added(es, value, k)) == (set f | f in ALL_FLAGS[..k] && f in value) - FlagsOf(es)
  {
    if k > 0 {
      FlagsOfAdded(es, value, k - 1);
      var f := ALL_FLAGS[k - 1];
      NamesRoundTrip(f);
      var tail := if f in value && f !in FlagsOf(es) then [Val(Name(f))] else [];
      FlagsOfAppend(Added(es, value, k - 1), tail);
      assert tail != [] ==> EntryFlag(tail[0]) == Some(f) && FlagsOf(tail) == {f};
      assert ALL_FLAGS[..k] == ALL_FLAGS[..k - 1] + [f];
    }
  }

  lemma EveryFlagIsListed(f: Flag)
    ensures f in ALL_FLAGS[..|ALL_FLAGS|]
  {
    assert ALL_FLAGS[0] == ApplicationStart && ALL_FLAGS[1] == WindowFocus && ALL_FLAGS[2] == WindowShow;
  }

  /** After an edit, exactly the wanted flags are read. */
  lemma EditReads(es: seq<Entry>, value: set<Flag>)
    ensures FlagsOf(Edit(es, value)) == value
  {
    FlagsOfAppend(Dropping(es, Unwanted(value)), Added(es, value, |ALL_FLAGS|));
    FlagsAfterDropping(es, Unwanted(value));
    FlagsOfAdded(es, value, |ALL_FLAGS|);
    forall f | f in value
      ensures f in FlagsOf(Edit(es, value))
    {
      EveryFlagIsListed(f);
    }
  }

  lemma {:induction false} NothingToAdd(es: seq<Entry>, value: set<Flag>, k: nat)
    requires k <= |ALL_FLAGS| && value <= FlagsOf(es)
    ensures Added(es, value, k) == []
  {
    if k > 0 {
      NothingToAdd(es, value, k - 1);
    }
  }

  /** A list that already reads as wanted is left alone. */
  lemma EditOfMatchingList(es: seq<Entry>, value: set<Flag>)
    requires FlagsOf(es) == value
    ensures Edit(es, value) == es
  {
    DroppingNothing(es, Unwanted(value));
    NothingToAdd(es, value, |ALL_FLAGS|);
  }

  /** Entries that the edit must not touch: unrecognised, or still requested. */
  predicate Kept(e: Entry, value: set<Flag>) {
    EntryFlag(e).None? || EntryFlag(e).value in value
  }

  function Keep(es: seq<Entry>, value: set<Flag>): seq<Entry> {
    if es == [] then []
    else (if Kept(es[0], value) then [es[0]] else []) + Keep(es[1..], value)
  }

  lemma {:induction false} DroppingKeeps(es: seq<Entry>, value: set<Flag>)
    ensures Dropping(es, Unwanted(value)) == Keep(es, value)
  {
    if es != [] {
      DroppingKeeps(es[1..], value);
    }
  }

  lemma {:induction false} KeepEverything(es: seq<Entry>, value: set<Flag>)
    requires FlagsOf(es) <= value
    ensures Keep(es, value) == es
  {
    DroppingKeeps(es, value);
    DroppingNothing(es, Unwanted(value));
  }

  /** The untouchable entries of the edited list are those of the old list, in the
      same order and spelling, followed by what is added; and nothing else is in the list. */
  lemma EditPreserves(es: seq<Entry>, value: set<Flag>)
    ensures Edit(es, value) == Keep(es, value) + Added(es, value, |ALL_FLAGS|)
    ensures Keep(Edit(es, value), value) == Edit(es, value)
    ensures AddedRight(Added(es, value, |ALL_FLAGS|), es, value, |ALL_FLAGS|)
  {
    DroppingKeeps(es, value);
    EditReads(es, value);
    KeepEverything(Edit(es, value), value);
    AddedAreMissingNames(es, value, |ALL_FLAGS|);
  }

  /** What is added are the names of missing requested flags among the first k, in enumeration
      order, and each such flag is there. */
  ghost predicate AddedRight(added: seq<Entry>, es: seq<Entry>, value: set<Flag>, k: nat) {
    && (forall i :: 0 <= i < |added| ==>
          && EntryFlag(added[i]).Some?
          && var f := EntryFlag(added[i]).value;
          && added[i] == Val(Name(f)) && f in value && f !in FlagsOf(es) && Position(f) < k)
    && (forall i, j :: 0 <= i < j < |added| ==>
          EntryFlag(added[i]).Some? && EntryFlag(added[j]).Some?
          && Position(EntryFlag(added[i]).value) < Position(EntryFlag(added[j]).value))
    && (forall f :: f in value && f !in FlagsOf(es) && Position(f) < k ==> Val(Name(f)) in added)
  }

  lemma {:induction false} AddedAreMissingNames(es: seq<Entry>, value: set<Flag>, k: nat)
    requires k <= |ALL_FLAGS|
    ensures AddedRight(Added(es, value, k), es, value, k)
  {
    hide FlagsOf, ToFlag, Name, AddedRight;
    if k > 0 {
      AddedAreMissingNames(es, value, k - 1);
      NextFlag(Added(es, value, k - 1), es, value, k, ALL_FLAGS[k - 1]);
      assert Added(es, value, k - 1) + [] == Added(es, value, k - 1);
    } else {
      NothingAddedYet(es, value);
    }
  }

  lemma NothingAddedYet(es: seq<Entry>, value: set<Flag>)
    ensures AddedRight([], es, value, 0)
  {
  }

  lemma NextFlag(before: seq<Entry>, es: seq<Entry>, value: set<Flag>, k: nat, f: Flag)
    requires 0 < k <= |ALL_FLAGS| && f == ALL_FLAGS[k - 1] && AddedRight(before, es, value, k - 1)
    ensures AddedRight(before + (if f in value && f !in FlagsOf(es) then [Val(Name(f))] else []), es, value, k)
  {
    hide FlagsOf, ToFlag, Name, Position;
    NamesRoundTrip(f);
    assert forall g :: Position(g) < k <==> Position(g) < k - 1 || g == f by {
      assert Position(f) == k - 1;
    }
    var tail := if f in value && f !in FlagsOf(es) then [Val(Name(f))] else [];
    var after := before + tail;
    assert forall i :: 0 <= i < |before| ==> after[i] == before[i];
    assert tail != [] ==> after[|before|] == Val(Name(f)) && EntryFlag(after[|before|]) == Some(f);
    hide EntryFlag;
    forall g | g in value && g !in FlagsOf(es) && Position(g) < k
      ensures Val(Name(g)) in after
    {
      if g == f {
        assert Val(Name(g)) in tail;
      } else {
        assert Val(Name(g)) in before;
      }
    }
  }

  // ---- what a write must give ---------------------------------------------------------------

  /** What callers guarantee: the list is absent, a value or a sequence, and "where" exists. */
  predicate Writable(n: MapNode) {
    if HasChild(n, WHEN) then !n[Find(n, WHEN)].1.Opaque? else HasChild(n, WHERE)
  }

  /** The node with a "when" list, inserted right before "where" if there was none. */
  function WithWhen(n: MapNode): (r: MapNode)
    requires Writable(n)
    ensures HasChild(r, WHEN) && !r[Find(r, WHEN)].1.Opaque?
  {
    if HasChild(n, WHEN) then n
    else
      var i := Find(n, WHERE);
      InsertedIsFound(n, i);
      n[..i] + [(WHEN, Sequence([]))] + n[i..]
  }

  lemma FindIs(n: MapNode, key: string, i: nat)
    requires i < |n| && n[i].0 == key && forall j :: 0 <= j < i ==> n[j].0 != key
    ensures Find(n, key) == i
  {
  }

  lemma InsertedIsFound(n: MapNode, i: nat)
    requires !HasChild(n, WHEN) && i <= |n|
    ensures var r := n[..i] + [(WHEN, Sequence([]))] + n[i..];
      Find(r, WHEN) == i && r[i] == (WHEN, Sequence([]))
  {
    FindIs(n[..i] + [(WHEN, Sequence([]))] + n[i..], WHEN, i);
  }

  function Entries(c: Child): seq<Entry>
    requires !c.Opaque?
  {
    if c.Scalar? then [Val(c.val)] else c.entries
  }

  /** A value stays a value as long as the result has one entry. */
  function EditChild(c: Child, value: set<Flag>): Child
    requires !c.Opaque?
  {
    var es := Edit(Entries(c), value);
    if c.Scalar? && |es| == 1 && es[0].Val? then Scalar(es[0].text) else Sequence(es)
  }

  function WriteTriggers(n: MapNode, value: set<Flag>): MapNode
    requires Writable(n)
  {
    var w := WithWhen(n);
    var i := Find(w, WHEN);
    w[i := (WHEN, EditChild(w[i].1, value))]
  }

  lemma UpdateKeepsFind(n: MapNode, c: Child)
    requires HasChild(n, WHEN)
    ensures Find(n[Find(n, WHEN) := (WHEN, c)], WHEN) == Find(n, WHEN)
  {
    FindIs(n[Find(n, WHEN) := (WHEN, c)], WHEN, Find(n, WHEN));
  }

  lemma EditChildReads(c: Child, value: set<Flag>)
    requires !c.Opaque?
    ensures var r := EditChild(c, value); !r.Opaque? && Entries(r) == Edit(Entries(c), value)
  {
  }

  /** The number of flags in a set. */
  function Count(value: set<Flag>): nat {
    (if ApplicationStart in value then 1 else 0) + (if WindowFocus in value then 1 else 0) + (if WindowShow in value then 1 else 0)
  }

  lemma {:induction false} AddedCount(es: seq<Entry>, value: set<Flag>, k: nat)
    requires k <= |ALL_FLAGS|
    ensures |Added(es, value, k)| ==
      (if k > 0 && ApplicationStart in value - FlagsOf(es) then 1 else 0)
      + (if k > 1 && WindowFocus in value - FlagsOf(es) then 1 else 0)
      + (if k > 2 && WindowShow in value - FlagsOf(es) then 1 else 0)
  {
    hide FlagsOf;
    if k > 0 {
      AddedCount(es, value, k - 1);
    }
  }

  /** A list stays a list. A single value stays one exactly when one entry is left: if it names no
      flag, only for the empty set, and otherwise for exactly one flag, whose spelling is kept if it
      was named and whose name is written if not. */
  lemma ValueStaysValueExactly(c: Child, value: set<Flag>)
    requires !c.Opaque?
    ensures c.Sequence? ==> EditChild(c, value).Sequence?
    ensures c.Scalar? ==>
      var named := ToFlag(c.val);
      && (EditChild(c, value).Scalar? <==> Count(value) == if named.None? then 0 else 1)
      && (named.None? && value == {} ==> EditChild(c, value) == c)
      && (forall f :: value == {f} && named.Some? ==> EditChild(c, value) == Scalar(if named.value == f then c.val else Name(f)))
  {
    hide Edit, ToFlag, Name, Count;
    if c.Scalar? {
      EditOfValue(c.val, value);
    }
    assert value == {} ==> Count(value) == 0 by { CountOfOne(value); }
    assert forall f :: value == {f} ==> Count(value) == 1 by { CountOfOne(value); }
  }

  lemma CountOfOne(value: set<Flag>)
    ensures value == {} <==> Count(value) == 0
    ensures forall f :: value == {f} ==> Count(value) == 1
  {
    forall f | f in value
      ensures Count(value) > 0
    {
      match f case ApplicationStart => case WindowFocus => case WindowShow =>
    }
  }

  lemma CountWithout(value: set<Flag>, f: Flag)
    ensures Count(value - {f}) == Count(value) - (if f in value then 1 else 0)
  {
  }

  lemma AddedSize(es: seq<Entry>, value: set<Flag>)
    ensures |Added(es, value, |ALL_FLAGS|)| == Count(value - FlagsOf(es))
    ensures forall i :: 0 <= i < |Added(es, value, |ALL_FLAGS|)| ==> Added(es, value, |ALL_FLAGS|)[i].Val?
  {
    hide FlagsOf, Added, ToFlag, Name;
    AddedCount(es, value, |ALL_FLAGS|);
    AddedAreMissingNames(es, value, |ALL_FLAGS|);
  }

  lemma OneAdded(es: seq<Entry>, f: Flag)
    requires f !in FlagsOf(es)
    ensures Added(es, {f}, |ALL_FLAGS|) == [Val(Name(f))]
  {
    hide FlagsOf, Added, ToFlag, Name;
    AddedSize(es, {f});
    AddedAreMissingNames(es, {f}, |ALL_FLAGS|);
    assert {f} - FlagsOf(es) == {f};
    CountOfOne({f});
    assert Position(f) < |ALL_FLAGS|;
    assert Val(Name(f)) in Added(es, {f}, |ALL_FLAGS|);
  }

  lemma EditOfValue(text: string, value: set<Flag>)
    ensures var r, named := Edit([Val(text)], value), ToFlag(text);
      && |r| == Count(value) + (if named.None? then 1 else 0)
      && (forall i :: 0 <= i < |r| ==> r[i].Val?)
      && (named.None? && |r| == 1 ==> r == [Val(text)])
      && (forall f :: value == {f} && named.Some? ==> r == [Val(if named.value == f then text else Name(f))])
  {
    hide FlagsOf, Added, ToFlag, Name, Count, Keep, Edit, AddedRight;
    var es, named := [Val(text)], ToFlag(text);
    ScalarFlags(text);
    AddedSize(es, value);
    EditPreserves(es, value);
    KeepOne(es[0], value);
    if named.None? {
      assert value - {} == value;
    } else {
      CountWithout(value, named.value);
      if value == {named.value} {
        CountOfOne(value);
      }
      forall f | value == {f} && f != named.value
        ensures Added(es, value, |ALL_FLAGS|) == [Val(Name(f))]
      {
        OneAdded(es, f);
      }
    }
  }

  lemma KeepOne(e: Entry, value: set<Flag>)
    ensures Keep([e], value) == if Kept(e, value) then [e] else []
  {
  }

  lemma ScalarFlags(text: string)
    ensures var es := [Val(text)];
      FlagsOf(es) == match ToFlag(text) case None => {} case Some(f) => {f}
  {
    hide ToFlag;
    var es := [Val(text)];
    if ToFlag(text).Some? {
      assert EntryFlag(es[0]).value in FlagsOf(es);
    }
  }

  /** Reading what was written gives exactly the flags written. */
  lemma ReadAfterWrite(n: MapNode, value: set<Flag>)
    requires Writable(n)
    ensures Writable(WriteTriggers(n, value))
    ensures ReadTriggers(WriteTriggers(n, value)) == Flags(value)
  {
    var w := WithWhen(n);
    var c := w[Find(w, WHEN)].1;
    UpdateKeepsFind(w, EditChild(c, value));
    EditChildReads(c, value);
    EditReads(Entries(c), value);
  }

  /** Writing the same flags again changes nothing. */
  lemma WriteIsIdempotent(n: MapNode, value: set<Flag>)
    requires Writable(n)
    ensures Writable(WriteTriggers(n, value))
    ensures WriteTriggers(WriteTriggers(n, value), value) == WriteTriggers(n, value)
  {
    ReadAfterWrite(n, value);
    var w := WithWhen(n);
    var c := w[Find(w, WHEN)].1;
    UpdateKeepsFind(w, EditChild(c, value));
    EditChildReads(c, value);
    EditReads(Entries(c), value);
    EditOfMatchingList(Edit(Entries(c), value), value);
  }

  /** The children other than the trigger list. */
  function Others(n: MapNode): MapNode {
    if n == [] then []
    else (if n[0].0 == WHEN then [] else [n[0]]) + Others(n[1..])
  }

  lemma {:induction false} OthersAppend(a: MapNode, b: MapNode)
    ensures Others(a + b) == Others(a) + Others(b)
  {
    if a == [] {
      assert a + b == b;
    } else {
      var first := if a[0].0 == WHEN then [] else [a[0]];
      assert (a + b)[0] == a[0] && (a + b)[1..] == a[1..] + b;
      OthersAppend(a[1..], b);
      assert Others(a + b) == first + Others(a[1..] + b) && Others(a) == first + Others(a[1..]);
    }
  }

  lemma OthersOfUpdate(w: MapNode, i: nat, c: Child)
    requires i < |w| && w[i].0 == WHEN
    ensures Others(w[i := (WHEN, c)]) == Others(w)
  {
    OthersOfInsert(w[..i], w[i].1, w[i + 1..]);
    OthersOfInsert(w[..i], c, w[i + 1..]);
    assert w == w[..i] + [(WHEN, w[i].1)] + w[i + 1..];
    assert w[i := (WHEN, c)] == w[..i] + [(WHEN, c)] + w[i + 1..];
  }

  lemma OthersOfInsert(a: MapNode, c: Child, b: MapNode)
    ensures Others(a + [(WHEN, c)] + b) == Others(a) + Others(b)
  {
    hide Others;
    OthersAppend(a + [(WHEN, c)], b);
    OthersAppend(a, [(WHEN, c)]);
    OthersOfList(c);
  }

  lemma OthersOfList(c: Child)
    ensures Others([(WHEN, c)]) == []
  {
  }

  /** All other children keep their order and contents, and a new list stands right before "where". */
  lemma WriteKeepsOthers(n: MapNode, value: set<Flag>)
    requires Writable(n)
    ensures Others(WriteTriggers(n, value)) == Others(n)
    ensures !HasChild(n, WHEN) ==>
      var r := WriteTriggers(n, value);
      Find(r, WHEN) + 1 < |r| && r[Find(r, WHEN) + 1].0 == WHERE && |r| == |n| + 1
  {
    hide Others, Find, EditChild, Edit;
    var w := WithWhen(n);
    var c := EditChild(w[Find(w, WHEN)].1, value);
    OthersOfUpdate(w, Find(w, WHEN), c);
    UpdateKeepsFind(w, c);
    if !HasChild(n, WHEN) {
      var k := Find(n, WHERE);
      InsertedIsFound(n, k);
      OthersOfInsert(n[..k], Sequence([]), n[k..]);
      OthersAppend(n[..k], n[k..]);
      assert n == n[..k] + n[k..];
    }
  }

  // ---- the list node, edited in place ------------------------------------------------------------

  /** The child after `id` in sibling order. */
  function NextSibling(ids: seq<nat>, id: nat): Option<nat> {
    if ids == [] then None
    else if ids[0] == id then (if |ids| > 1 then Some(ids[1]) else None)
    else NextSibling(ids[1..], id)
  }

  function Without(ids: seq<nat>, id: nat): seq<nat> {
    if ids == [] then []
    else if ids[0] == id then ids[1..]
    else [ids[0]] + Without(ids[1..], id)
  }

  lemma {:induction false} SiblingAt(a: seq<nat>, id: nat, b: seq<nat>)
    requires id !in a
    ensures NextSibling(a + [id] + b, id) == if b == [] then None else Some(b[0])
    ensures Without(a + [id] + b, id) == a + b
  {
    var s := a + [id] + b;
    if a == [] {
      assert s == [id] + b && s[1..] == b && a + b == b;
    } else {
      var tail := a[1..] + [id] + b;
      SiblingAt(a[1..], id, b);
      assert s == [a[0]] + tail && s[1..] == tail;
      assert tail != [] && a[0] != id;
      assert [a[0]] + (a[1..] + b) == a + b;
    }
  }

  predicate Distinct(ids: seq<nat>) {
    forall i, j :: 0 <= i < j < |ids| ==> ids[i] != ids[j]
  }

  function Contents(ids: seq<nat>, entry: map<nat, Entry>): (es: seq<Entry>)
    requires forall id :: id in ids ==> id in entry
    ensures |es| == |ids|
  {
    seq(|ids|, i requires 0 <= i < |ids| => entry[ids[i]])
  }

  lemma DroppingNone(e: map<nat, Entry>, all: seq<nat>, flag: Flag)
    requires forall id :: id in all ==> id in e
    ensures Contents([], e) == Dropping(Contents(all, e)[..0], {flag})
  {
  }

  /** One step of the walk: the entry at k joins the kept ones unless it names the flag. */
  lemma DroppingNext(e: map<nat, Entry>, all: seq<nat>, kept: seq<nat>, k: nat, flag: Flag)
    requires k < |all|
    requires forall id :: id in all || id in kept ==> id in e
    requires Contents(kept, e) == Dropping(Contents(all, e)[..k], {flag})
    ensures Dropping(Contents(all, e)[..k + 1], {flag})
         == if EntryFlag(e[all[k]]) == Some(flag) then Contents(kept, e) else Contents(kept + [all[k]], e)
  {
    var es := Contents(all, e);
    assert es[..k + 1] == es[..k] + [es[k]];
    DroppingAppend(es[..k], [es[k]], {flag});
    assert Contents(kept + [all[k]], e) == Contents(kept, e) + [es[k]];
  }

  /** Where a walk stands: the kept children, then those not yet visited. */
  lemma WalkStep(all: seq<nat>, kept: seq<nat>, k: nat)
    requires k < |all| && Distinct(kept + all[k..])
    ensures var ids := kept + all[k..]; var id := all[k];
      && id in ids && all[..k + 1] == all[..k] + [id]
      && NextSibling(ids, id) == (if k + 1 == |all| then None else Some(all[k + 1]))
      && Without(ids, id) == kept + all[k + 1..]
      && ids == kept + [id] + all[k + 1..]
  {
    var id, rest := all[k], all[k + 1..];
    assert all[k..] == [id] + rest;
    assert kept + all[k..] == kept + [id] + rest;
    NotBefore(kept, id, rest);
    SiblingAt(kept, id, rest);
    assert (kept + [id] + rest)[|kept|] == id;
  }

  lemma {:induction false} WithoutStaysDistinct(ids: seq<nat>, id: nat)
    requires Distinct(ids)
    ensures Distinct(Without(ids, id))
    ensures forall x :: x in Without(ids, id) ==> x in ids
  {
    if ids != [] && ids[0] != id {
      WithoutStaysDistinct(ids[1..], id);
      var rest := Without(ids[1..], id);
      assert ids[0] !in rest;
      assert forall i, j :: 0 <= i < j < |[ids[0]] + rest| ==> ([ids[0]] + rest)[i] != ([ids[0]] + rest)[j] by {
        assert forall j :: 0 <= j < |rest| ==> rest[j] in rest;
      }
    }
  }

  /** A sequence node whose children are linked in sibling order. */
  class SequenceNode {
    var ids: seq<nat>
    var entry: map<nat, Entry>
    var nextId: nat

    ghost predicate Valid()
      reads this
    {
      && Distinct(ids)
      && (forall id :: id in ids ==> id in entry)
      && (forall id :: id in entry ==> id < nextId)
    }

    function List(): seq<Entry>
      reads this
      requires Valid()
    {
      Contents(ids, entry)
    }

    constructor (es: seq<Entry>)
      ensures Valid() && List() == es
    {
      ids := seq(|es|, i => i);
      entry := map i: nat | i < |es| :: es[i];
      nextId := |es|;
      new;
      assert List() == es;
    }

    method AppendChild(e: Entry)
      requires Valid()
      modifies this
      ensures Valid() && List() == old(List()) + [e]
    {
      assert forall i :: 0 <= i < |ids| ==> ids[i] in ids;
      ids, entry, nextId := ids + [nextId], entry[nextId := e], nextId + 1;
    }

    method RemoveChild(id: nat)
      requires Valid() && id in ids
      modifies this
      ensures Valid() && ids == Without(old(ids), id) && entry == old(entry) && nextId == old(nextId)
    {
      WithoutStaysDistinct(ids, id);
      ids := Without(ids, id);
    }

    /** Removes the children naming `flag` while walking; the next sibling is fetched before
        the current child may go. `visited` lists the children the walk came by. */
    method RemoveMatching(flag: Flag) returns (ghost visited: seq<nat>)
      requires Valid()
      modifies this
      ensures Valid() && List() == Dropping(old(List()), {flag})
      ensures visited == old(ids)
    {
      hide Dropping, EntryFlag, NextSibling, Without, Contents, Distinct;
      ghost var all, e, es := ids, entry, List();
      ghost var k := 0;
      ghost var kept := [];
      var child := if ids == [] then None else Some(ids[0]);
      visited := [];
      DroppingNone(e, all, flag);
      while child.Some?
        invariant 0 <= k <= |all| && visited == all[..k]
        invariant child == if k == |all| then None else Some(all[k])
        invariant Valid() && entry == e && ids == kept + all[k..]
        invariant forall id :: id in kept ==> id in e
        invariant Contents(kept, e) == Dropping(Contents(all, e)[..k], {flag})
        decreases |all| - k
      {
        var id := child.value;
        WalkStep(all, kept, k);
        var next := NextSibling(ids, id);
        DroppingNext(e, all, kept, k, flag);
        if EntryFlag(entry[id]) == Some(flag) {
          RemoveChild(id);
        } else {
          kept := kept + [id];
        }
        visited := visited + [id];
        k := k + 1;
        child := next;
      }
      assert ids == kept && Contents(all, e)[..k] == Contents(all, e);
    }

    /** Stops at the first child that names `flag`. */
    method ContainsFlag(flag: Flag) returns (found: bool)
      requires Valid()
      ensures found <==> flag in FlagsOf(List())
    {
      hide NextSibling, Distinct, EntryFlag, Without;
      ghost var k := 0;
      var child := if ids == [] then None else Some(ids[0]);
      while child.Some?
        invariant 0 <= k <= |ids|
        invariant child == if k == |ids| then None else Some(ids[k])
        invariant forall i :: 0 <= i < k ==> EntryFlag(List()[i]) != Some(flag)
        decreases |ids| - k
      {
        var id := child.value;
        assert ids == ids[..k] + ids[k..];
        WalkStep(ids, ids[..k], k);
        if EntryFlag(entry[id]) == Some(flag) {
          assert EntryFlag(List()[k]) == Some(flag);
          return true;
        }
        child := NextSibling(ids, id);
        k := k + 1;
      }
      found := false;
    }
  }

  lemma NotBefore(a: seq<nat>, id: nat, b: seq<nat>)
    requires Distinct(a + [id] + b)
    ensures id !in a
  {
    var s := a + [id] + b;
    assert s[|a|] == id;
    assert forall i :: 0 <= i < |a| ==> s[i] == a[i];
  }

  lemma {:induction false} OthersDecideChild(n: MapNode, key: string)
    requires key != WHEN
    ensures HasChild(n, key) <==> HasChild(Others(n), key)
    ensures HasChild(n, key) ==> n[Find(n, key)] == Others(n)[Find(Others(n), key)]
  {
    if n != [] && n[0].0 != key {
      OthersDecideChild(n[1..], key);
      if n[0].0 == WHEN {
        assert Others(n) == Others(n[1..]);
      }
    }
  }

  /** A rule that could be read can be read after its flags were written, under the same name. */
  lemma WriteKeepsParsing(n: MapNode, value: set<Flag>)
    requires Parses(n)
    ensures Writable(n) && Parses(WriteTriggers(n, value))
    ensures ReadName(WriteTriggers(n, value)) == ReadName(n)
  {
    WriteKeepsOthers(n, value);
    ReadAfterWrite(n, value);
    assert WHERE[1] == 'h' && WHEN[2] == 'e' && WHERE[2] == 'e' && |WHERE| == 5 && |WHEN| == 4;
    assert THEN[0] == 't' && NAME[0] == 'n' && WHEN[0] == 'w';
    hide Others, Find, WriteTriggers, Writable;
    forall key: string | key != WHEN
      ensures HasChild(n, key) <==> HasChild(WriteTriggers(n, value), key)
      ensures HasChild(n, key) ==> n[Find(n, key)] == WriteTriggers(n, value)[Find(WriteTriggers(n, value), key)]
    {
      OthersDecideChild(n, key);
      OthersDecideChild(WriteTriggers(n, value), key);
    }
  }

  // ---- the rule, with its cached flags ----------------------------------------------------------------

  class Rule {
    var node: MapNode
    const name: string
    var triggers: set<Flag>

    /** The cache agrees with what a fresh rule would read. */
    ghost predicate Valid()
      reads this
    {
      Parses(node) && ReadName(node) == Some(name) && ReadTriggers(node) == Flags(triggers)
    }

    /** Null stands for the parse errors: a required key is missing, the name is a container, or
        the list is no list. */
    static method Make(node: MapNode) returns (r: Rule?)
      ensures r == null <==>
        !HasChild(node, WHERE) || !HasChild(node, THEN) || ReadName(node).None? || !ReadTriggers(node).Flags?
      ensures r != null ==> r.Valid() && r.node == node
    {
      if !HasChild(node, WHERE) || !HasChild(node, THEN) || ReadName(node).None? || !ReadTriggers(node).Flags? {
        return null;
      }
      r := new Rule(node);
    }

    constructor (node: MapNode)
      requires Parses(node)
      ensures Valid() && this.node == node
    {
      this.node := node;
      this.name := ReadName(node).value;
      this.triggers := ReadTriggers(node).flags;
    }

    method RemoveUnrequested(list: SequenceNode, value: set<Flag>)
      requires list.Valid()
      modifies list
      ensures list.Valid() && list.List() == Dropping(old(list.List()), Unwanted(value))
    {
      ghost var es := list.List();
      ghost var dropped: set<Flag> := {};
      DroppingNothing(es, {});
      for i := 0 to |ALL_FLAGS|
        invariant list.Valid() && list.List() == Dropping(es, dropped)
        invariant dropped == set f | f in ALL_FLAGS[..i] && f !in value
      {
        var f := ALL_FLAGS[i];
        assert ALL_FLAGS[..i + 1] == ALL_FLAGS[..i] + [f];
        if f !in value {
          var visited := list.RemoveMatching(f);
          DroppingTwice(es, dropped, {f});
          dropped := dropped + {f};
        }
      }
      assert dropped == Unwanted(value) by {
        EveryFlagIsListed(ApplicationStart);
        EveryFlagIsListed(WindowFocus);
        EveryFlagIsListed(WindowShow);
      }
    }

    method AppendMissing(list: SequenceNode, value: set<Flag>, ghost es: seq<Entry>)
      requires list.Valid() && list.List() == Dropping(es, Unwanted(value))
      modifies list
      ensures list.Valid() && list.List() == Edit(es, value)
    {
      ghost var kept := list.List();
      for i := 0 to |ALL_FLAGS|
        invariant list.Valid() && list.List() == kept + Added(es, value, i)
      {
        var f := ALL_FLAGS[i];
        if f in value {
          var found := list.ContainsFlag(f);
          FlagsOfAppend(kept, Added(es, value, i));
          FlagsAfterDropping(es, Unwanted(value));
          FlagsOfAdded(es, value, i);
          NotListedBefore(i);
          assert found <==> f in FlagsOf(es);
          if !found {
            list.AppendChild(Val(Name(f)));
          }
        }
      }
    }

    /** The write path: find or insert the list, turn a value into a list, remove, append,
        and turn a single entry back into a value. */
    method WriteTriggersToNode(value: set<Flag>)
      requires Writable(node)
      modifies this`node
      ensures node == WriteTriggers(old(node), value)
    {
      if !HasChild(node, WHEN) {
        var at := Find(node, WHERE);
        InsertedIsFound(node, at);
        node := node[..at] + [(WHEN, Sequence([]))] + node[at..];
      }
      var i := Find(node, WHEN);
      var when := node[i].1;
      var isScalar := !when.Sequence?;
      var list := new SequenceNode(Entries(when));
      RemoveUnrequested(list, value);
      AppendMissing(list, value, Entries(when));
      var es := list.List();
      if isScalar && |es| == 1 && es[0].Val? {
        node := node[i := (WHEN, Scalar(es[0].text))];
      } else {
        node := node[i := (WHEN, Sequence(es))];
      }
    }

    method SetTriggerFlags(value: set<Flag>)
      requires Valid()
      modifies this
      ensures Valid() && triggers == value
      ensures node == if old(triggers) == value then old(node) else WriteTriggers(old(node), value)
    {
      if triggers == value {
        return;
      }
      WriteKeepsParsing(node, value);
      ReadAfterWrite(node, value);
      WriteTriggersToNode(value);
      triggers := value;
    }
  }

  lemma NotListedBefore(i: nat)
    requires i < |ALL_FLAGS|
    ensures ALL_FLAGS[i] !in ALL_FLAGS[..i]
  {
  }
}
