/** The rule editor: which filter keys are in use, pending edits, and applying them. */
module RuleEditor {
  import opened MatchPattern
  import opened SettingsTree
  import opened Wrappers

  datatype Entry = Entry(key: FilterKey, pattern: Pattern, pending: bool)

  /** The settings being edited, the shown filters in their order, the keys that are offered
      for adding, and the keys whose settings are to be cleared. */
  datatype Editor = Editor(
    filter: FilterState, used: seq<Entry>, unused: seq<FilterKey>, deleting: seq<FilterKey>)

  const ALL_KEYS := [ProcessName, WindowClass, WindowTitle]

  predicate Distinct(keys: seq<FilterKey>) {
    forall i, j :: 0 <= i < j < |keys| ==> keys[i] != keys[j]
  }

  function UsedKeys(used: seq<Entry>): set<FilterKey> {
    set i | 0 <= i < |used| :: used[i].key
  }

  /** The keys outside a set, in the order of the list. */
  function Without(keys: seq<FilterKey>, taken: set<FilterKey>): (r: seq<FilterKey>)
    ensures forall k :: k in r <==> k in keys && k !in taken
  {
    if keys == [] then []
    else (if keys[0] in taken then [] else [keys[0]]) + Without(keys[1..], taken)
  }

  function Removed<T>(s: seq<T>, i: nat): (r: seq<T>)
    requires i < |s|
    ensures |r| == |s| - 1
  {
    s[..i] + s[i + 1..]
  }

  lemma RemovedMeaning<T>(s: seq<T>, i: nat)
    requires i < |s|
    ensures forall j :: 0 <= j < |s| - 1 ==> Removed(s, i)[j] == s[if j < i then j else j + 1]
    ensures forall x :: x in Removed(s, i) ==> x in s
  {
  }

  /** A setting that counts as a filter. */
  predicate HasFilter(p: Pattern) {
    p.kind != Contains || p.value != ""
  }

  // ---- operations ------------------------------------------------------------------------------

  function OpenedEntries(f: FilterState, keys: seq<FilterKey>): seq<Entry> {
    if keys == [] then []
    else
      (if HasFilter(f.Live(keys[0])) then [Entry(keys[0], f.Live(keys[0]), false)] else [])
      + OpenedEntries(f, keys[1..])
  }

  function Opened(f: FilterState, keys: seq<FilterKey>): Editor {
    var used := OpenedEntries(f, keys);
    Editor(f, used, Without(keys, UsedKeys(used)), [])
  }

  datatype Command =
    | Add(key: FilterKey)
    | Delete(key: FilterKey)
    | SetType(key: FilterKey, kind: MatchType)
    | SetValue(key: FilterKey, value: string)
    | Apply

  /** A setter marks an entry as pending only when it changes something. */
  function Edited(en: Entry, p: Pattern): Entry {
    if en.pattern == p then en else Entry(en.key, p, true)
  }

  function EditAt(e: Editor, i: nat, p: Pattern): Editor
    requires i < |e.used|
  {
    e.(used := e.used[i := Edited(e.used[i], p)])
  }

  /** The place of a key among the shown filters, or their number. */
  function Find(used: seq<Entry>, key: FilterKey): (i: nat)
    ensures i <= |used|
    ensures i < |used| ==> used[i].key == key
    ensures forall j :: 0 <= j < i ==> used[j].key != key
  {
    if used == [] || used[0].key == key then 0 else 1 + Find(used[1..], key)
  }

  function AddKey(e: Editor, keys: seq<FilterKey>, key: FilterKey): Editor {
    var used := e.used + [Entry(key, NO_PATTERN, true)];
    e.(used := used, unused := Without(keys, UsedKeys(used)))
  }

  function DeleteAt(e: Editor, keys: seq<FilterKey>, i: nat): Editor
    requires i < |e.used|
  {
    var used := Removed(e.used, i);
    e.(used := used, unused := Without(keys, UsedKeys(used)), deleting := e.deleting + [e.used[i].key])
  }

  function Clear(f: FilterState, keys: seq<FilterKey>): FilterState {
    if keys == [] then f else Clear(f, keys[..|keys| - 1]).With(keys[|keys| - 1], NO_PATTERN)
  }

  function Store(f: FilterState, used: seq<Entry>): FilterState {
    if used == [] then f
    else
      var g, en := Store(f, used[..|used| - 1]), used[|used| - 1];
      if en.pending then g.With(en.key, en.pattern) else g
  }

  function Settled(used: seq<Entry>): (r: seq<Entry>)
    ensures |r| == |used|
  {
    seq(|used|, i requires 0 <= i < |used| => used[i].(pending := false))
  }

  function ApplyAll(e: Editor): Editor {
    Editor(Store(Clear(e.filter, e.deleting), e.used), Settled(e.used), e.unused, [])
  }

  predicate AnyPending(used: seq<Entry>) {
    exists i :: 0 <= i < |used| && used[i].pending
  }

  predicate HasPendingChanges(e: Editor) {
    e.deleting != [] || AnyPending(e.used)
  }

  /** A command on a key that is not there raises invalid argument and changes nothing. */
  function Perform(e: Editor, keys: seq<FilterKey>, c: Command): Editor {
    match c
    case Add(key) => if key in e.unused then AddKey(e, keys, key) else e
    case Delete(key) => if Find(e.used, key) < |e.used| then DeleteAt(e, keys, Find(e.used, key)) else e
    case SetType(key, kind) =>
      var i := Find(e.used, key);
      if i < |e.used| then EditAt(e, i, e.used[i].pattern.(kind := kind)) else e
    case SetValue(key, value) =>
      var i := Find(e.used, key);
      if i < |e.used| then EditAt(e, i, e.used[i].pattern.(value := value)) else e
    case Apply => ApplyAll(e)
  }

  function Run(e: Editor, keys: seq<FilterKey>, commands: seq<Command>): Editor {
    if commands == [] then e
    else Perform(Run(e, keys, commands[..|commands| - 1]), keys, commands[|commands| - 1])
  }

  // ---- what every command keeps ------------------------------------------------------------------

  ghost predicate DistinctEntries(used: seq<Entry>) {
    forall i, j :: 0 <= i < j < |used| ==> used[i].key != used[j].key
  }

  ghost predicate Inv(e: Editor, keys: seq<FilterKey>) {
    && DistinctEntries(e.used)
    && (forall i :: 0 <= i < |e.used| ==> e.used[i].key in keys)
    && e.unused == Without(keys, UsedKeys(e.used))
    && (forall i :: 0 <= i < |e.used| && !e.used[i].pending ==>
          e.used[i].pattern == e.filter.Live(e.used[i].key) && e.used[i].key !in e.deleting)
    && (forall k :: k in e.unused ==> k in e.deleting || e.filter.Live(k) == NO_PATTERN)
    && (forall k :: k in e.deleting ==> k in keys)
  }

  lemma UsedKeysAppend(a: seq<Entry>, b: seq<Entry>)
    ensures UsedKeys(a + b) == UsedKeys(a) + UsedKeys(b)
  {
    forall k
      ensures k in UsedKeys(a + b) <==> k in UsedKeys(a) || k in UsedKeys(b)
    {
      if k in UsedKeys(a) {
        var i :| 0 <= i < |a| && a[i].key == k;
        assert (a + b)[i].key == k;
      }
      if k in UsedKeys(b) {
        var i :| 0 <= i < |b| && b[i].key == k;
        assert (a + b)[|a| + i].key == k;
      }
    }
  }

  lemma {:induction false} OpenedEntriesMeaning(f: FilterState, keys: seq<FilterKey>)
    requires Distinct(keys)
    ensures var used := OpenedEntries(f, keys);
      && (forall k :: k in UsedKeys(used) <==> k in keys && HasFilter(f.Live(k)))
      && (forall i :: 0 <= i < |used| ==> !used[i].pending && used[i].pattern == f.Live(used[i].key))
      && DistinctEntries(used)
  {
    hide HasFilter, FilterState.Live;
    if keys != [] {
      OpenedEntriesMeaning(f, keys[1..]);
      Prepend(Entry(keys[0], f.Live(keys[0]), false), OpenedEntries(f, keys[1..]));
      hide UsedKeys, DistinctEntries;
      assert [] + OpenedEntries(f, keys[1..]) == OpenedEntries(f, keys[1..]);
      assert forall k :: k in keys <==> k == keys[0] || k in keys[1..];
    }
  }

  lemma Prepend(en: Entry, rest: seq<Entry>)
    ensures UsedKeys([en] + rest) == {en.key} + UsedKeys(rest)
    ensures DistinctEntries(rest) && en.key !in UsedKeys(rest) ==> DistinctEntries([en] + rest)
  {
    UsedKeysAppend([en], rest);
    assert [en][0].key in UsedKeys([en]);
    assert forall i :: 0 <= i < |rest| ==> rest[i].key in UsedKeys(rest);
  }

  lemma OpenedInv(f: FilterState, keys: seq<FilterKey>)
    requires Distinct(keys)
    ensures Inv(Opened(f, keys), keys)
    ensures forall k :: k in UsedKeys(Opened(f, keys).used) <==> k in keys && HasFilter(f.Live(k))
    ensures !HasPendingChanges(Opened(f, keys))
  {
    OpenedEntriesMeaning(f, keys);
    hide OpenedEntries, FilterState.Live;
    var used := OpenedEntries(f, keys);
    assert forall i :: 0 <= i < |used| ==> used[i].key in UsedKeys(used);
  }

  lemma {:induction false} ClearMeaning(f: FilterState, keys: seq<FilterKey>, k: FilterKey)
    ensures Clear(f, keys).Live(k) == if k in keys then NO_PATTERN else f.Live(k)
  {
    hide WriteFilterPattern;
    if keys != [] {
      ClearMeaning(f, keys[..|keys| - 1], k);
      assert keys == keys[..|keys| - 1] + [keys[|keys| - 1]];
    }
  }

  /** Each pending entry is stored, whatever the order; no other setting moves. */
  lemma {:induction false} StoreMeaning(f: FilterState, used: seq<Entry>, k: FilterKey)
    requires DistinctEntries(used)
    ensures forall i :: 0 <= i < |used| && used[i].key == k ==>
      Store(f, used).Live(k) == if used[i].pending then used[i].pattern else f.Live(k)
    ensures k !in UsedKeys(used) ==> Store(f, used).Live(k) == f.Live(k)
  {
    if used != [] {
      var n := |used| - 1;
      StoreMeaning(f, used[..n], k);
      assert used[n].key in UsedKeys(used);
      assert forall i :: 0 <= i < n ==> used[..n][i] == used[i];
      assert UsedKeys(used[..n]) <= UsedKeys(used);
      if used[n].key == k {
        assert k !in UsedKeys(used[..n]);
      }
    }
  }

  lemma UsedKeysOfEdit(used: seq<Entry>, i: nat, p: Pattern)
    requires i < |used|
    ensures UsedKeys(used[i := Edited(used[i], p)]) == UsedKeys(used)
  {
    var edited := used[i := Edited(used[i], p)];
    assert forall j :: 0 <= j < |used| ==> edited[j].key == used[j].key;
    assert forall k :: k in UsedKeys(used) ==> k in UsedKeys(edited);
  }

  lemma EditInv(e: Editor, keys: seq<FilterKey>, i: nat, p: Pattern)
    requires Inv(e, keys) && i < |e.used|
    ensures Inv(EditAt(e, i, p), keys)
  {
    hide FilterState.Live;
    UsedKeysOfEdit(e.used, i, p);
  }

  lemma AddInv(e: Editor, keys: seq<FilterKey>, key: FilterKey)
    requires Inv(e, keys) && key in e.unused
    ensures Inv(AddKey(e, keys, key), keys)
    ensures UsedKeys(AddKey(e, keys, key).used) == UsedKeys(e.used) + {key}
  {
    hide FilterState.Live;
    var added := [Entry(key, NO_PATTERN, true)];
    UsedKeysAppend(e.used, added);
    assert UsedKeys(added) == {key} by {
      assert added[0].key in UsedKeys(added);
    }
    assert forall i :: 0 <= i < |e.used| ==> e.used[i].key in UsedKeys(e.used);
  }

  lemma UsedKeysOfRemoval(used: seq<Entry>, i: nat)
    requires DistinctEntries(used) && i < |used|
    ensures UsedKeys(Removed(used, i)) == UsedKeys(used) - {used[i].key}
    ensures used[i].key in UsedKeys(used)
  {
    var single := [used[i]];
    assert used == used[..i] + (single + used[i + 1..]);
    UsedKeysAppend(used[..i], single + used[i + 1..]);
    UsedKeysAppend(single, used[i + 1..]);
    UsedKeysAppend(used[..i], used[i + 1..]);
    assert UsedKeys(single) == {used[i].key} by {
      assert single[0].key in UsedKeys(single);
    }
  }

  lemma DeleteInv(e: Editor, keys: seq<FilterKey>, i: nat)
    requires Inv(e, keys) && i < |e.used|
    ensures Inv(DeleteAt(e, keys, i), keys)
    ensures UsedKeys(DeleteAt(e, keys, i).used) == UsedKeys(e.used) - {e.used[i].key}
  {
    hide FilterState.Live;
    UsedKeysOfRemoval(e.used, i);
    var d := DeleteAt(e, keys, i);
    assert forall k :: k in d.unused ==> k in e.unused || k == e.used[i].key;
    assert e.used[i].key in d.deleting;
  }

  lemma UsedKeysOfSettled(used: seq<Entry>)
    ensures UsedKeys(Settled(used)) == UsedKeys(used)
  {
    assert forall i :: 0 <= i < |used| ==> Settled(used)[i].key == used[i].key;
    assert forall k :: k in UsedKeys(used) ==> k in UsedKeys(Settled(used));
  }

  /** Each used key's setting is what is shown and each unused key's setting is the empty pattern. */
  ghost predicate InSync(e: Editor) {
    && (forall i :: 0 <= i < |e.used| ==> e.filter.Live(e.used[i].key) == e.used[i].pattern)
    && (forall k :: k in e.unused ==> e.filter.Live(k) == NO_PATTERN)
  }

  lemma {:induction false} StoreNothing(f: FilterState, used: seq<Entry>)
    requires forall i :: 0 <= i < |used| ==> !used[i].pending
    ensures Store(f, used) == f
  {
    if used != [] {
      StoreNothing(f, used[..|used| - 1]);
    }
  }

  lemma ApplyStores(e: Editor, keys: seq<FilterKey>, k: FilterKey)
    requires Inv(e, keys)
    ensures forall i :: 0 <= i < |e.used| && e.used[i].key == k ==> ApplyAll(e).filter.Live(k) == e.used[i].pattern
    ensures k in e.unused ==> ApplyAll(e).filter.Live(k) == NO_PATTERN
  {
    hide Clear, Store, FilterState.Live, UsedKeys;
    ClearMeaning(e.filter, e.deleting, k);
    StoreMeaning(Clear(e.filter, e.deleting), e.used, k);
  }

  /** Applying brings the settings in step with what is shown, and leaves nothing to apply. */
  lemma ApplySyncs(e: Editor, keys: seq<FilterKey>)
    requires Inv(e, keys)
    ensures Inv(ApplyAll(e), keys) && InSync(ApplyAll(e))
    ensures !HasPendingChanges(ApplyAll(e)) && ApplyAll(ApplyAll(e)) == ApplyAll(e)
    ensures ApplyAll(e).unused == e.unused && |ApplyAll(e).used| == |e.used|
    ensures forall i :: 0 <= i < |e.used| ==> ApplyAll(e).used[i] == e.used[i].(pending := false)
  {
    var a := ApplyAll(e);
    assert Clear(a.filter, []) == a.filter;
    hide Clear, Store, FilterState.Live, UsedKeys;
    UsedKeysOfSettled(e.used);
    StoreNothing(a.filter, a.used);
    forall k: FilterKey
      ensures forall i :: 0 <= i < |e.used| && e.used[i].key == k ==> a.filter.Live(k) == e.used[i].pattern
      ensures k in e.unused ==> a.filter.Live(k) == NO_PATTERN
    {
      ApplyStores(e, keys, k);
    }
  }

  lemma PerformKeepsInv(e: Editor, keys: seq<FilterKey>, c: Command)
    requires Inv(e, keys)
    ensures Inv(Perform(e, keys, c), keys)
  {
    hide Inv, ApplyAll, AddKey, DeleteAt, EditAt;
    match c {
      case Add(key) => if key in e.unused { AddInv(e, keys, key); }
      case Delete(key) => if Find(e.used, key) < |e.used| { DeleteInv(e, keys, Find(e.used, key)); }
      case SetType(key, kind) =>
        var i := Find(e.used, key);
        if i < |e.used| { EditInv(e, keys, i, e.used[i].pattern.(kind := kind)); }
      case SetValue(key, value) =>
        var i := Find(e.used, key);
        if i < |e.used| { EditInv(e, keys, i, e.used[i].pattern.(value := value)); }
      case Apply => ApplySyncs(e, keys);
    }
  }

  lemma {:induction false} RunKeepsInv(f: FilterState, keys: seq<FilterKey>, commands: seq<Command>)
    requires Distinct(keys)
    ensures Inv(Run(Opened(f, keys), keys, commands), keys)
  {
    if commands == [] {
      OpenedInv(f, keys);
    } else {
      RunKeepsInv(f, keys, commands[..|commands| - 1]);
      hide Inv, Perform;
      PerformKeepsInv(Run(Opened(f, keys), keys, commands[..|commands| - 1]), keys, commands[|commands| - 1]);
    }
  }

  // ---- the main results ---------------------------------------------------------------------------

  ghost predicate Before(keys: seq<FilterKey>, a: FilterKey, b: FilterKey) {
    exists i, j :: 0 <= i < j < |keys| && keys[i] == a && keys[j] == b
  }

  lemma BeforeInRest(keys: seq<FilterKey>, a: FilterKey, b: FilterKey)
    requires keys != []
    ensures Before(keys[1..], a, b) || (keys[0] == a && b in keys[1..]) ==> Before(keys, a, b)
  {
    if i, j :| 0 <= i < j < |keys[1..]| && keys[1..][i] == a && keys[1..][j] == b {
      assert keys[i + 1] == a && keys[j + 1] == b;
    }
    if keys[0] == a && b in keys[1..] {
      var j :| 0 <= j < |keys[1..]| && keys[1..][j] == b;
      assert keys[j + 1] == b;
    }
  }

  lemma {:induction false} WithoutKeepsOrder(keys: seq<FilterKey>, taken: set<FilterKey>, i: nat, j: nat)
    requires i < j < |Without(keys, taken)|
    ensures Before(keys, Without(keys, taken)[i], Without(keys, taken)[j])
  {
    hide Before, Without;
    var offered := Without(keys, taken);
    assert offered[i] in keys;
    var rest := Without(keys[1..], taken);
    BeforeInRest(keys, offered[i], offered[j]);
    if keys[0] in taken {
      WithoutCons(keys, taken, []);
      assert offered == rest;
      WithoutKeepsOrder(keys[1..], taken, i, j);
    } else {
      WithoutCons(keys, taken, [keys[0]]);
      assert offered[j] == rest[j - 1];
      if i > 0 {
        assert offered[i] == rest[i - 1];
        WithoutKeepsOrder(keys[1..], taken, i - 1, j - 1);
      }
    }
  }

  /** In every run each key is shown or offered but not both, no key is shown twice, and the
      offered keys stand in the order of the list. */
  lemma UsedAndUnusedPartition(f: FilterState, keys: seq<FilterKey>, commands: seq<Command>)
    requires Distinct(keys)
    ensures var e := Run(Opened(f, keys), keys, commands);
      && (forall k :: k in keys <==> k in UsedKeys(e.used) || k in e.unused)
      && (forall k :: !(k in UsedKeys(e.used) && k in e.unused))
      && DistinctEntries(e.used)
      && (forall i, j :: 0 <= i < j < |e.unused| ==> Before(keys, e.unused[i], e.unused[j]))
  {
    RunKeepsInv(f, keys, commands);
    hide Run, Opened, FilterState.Live, Before;
    var e := Run(Opened(f, keys), keys, commands);
    forall i, j | 0 <= i < j < |e.unused|
      ensures Before(keys, e.unused[i], e.unused[j])
    {
      WithoutKeepsOrder(keys, UsedKeys(e.used), i, j);
    }
  }

  /** Whatever was added, edited, deleted and applied before, applying puts every used key's
      setting to what is shown and every unused key's to the empty pattern; applying again
      changes nothing. */
  lemma ApplyAfterAnyRun(f: FilterState, keys: seq<FilterKey>, commands: seq<Command>)
    requires Distinct(keys)
    ensures var e := Run(Opened(f, keys), keys, commands);
      var a := Run(Opened(f, keys), keys, commands + [Apply]);
      && InSync(a)
      && a.unused == e.unused
      && |a.used| == |e.used|
      && (forall i :: 0 <= i < |e.used| ==> a.used[i] == e.used[i].(pending := false))
      && !HasPendingChanges(a)
      && Perform(a, keys, Apply) == a
  {
    RunKeepsInv(f, keys, commands);
    ApplySyncs(Run(Opened(f, keys), keys, commands), keys);
    assert (commands + [Apply])[..|commands|] == commands;
  }

  /** No pending changes means there is nothing to save. */
  lemma NotPendingMeansInSync(f: FilterState, keys: seq<FilterKey>, commands: seq<Command>)
    requires Distinct(keys)
    ensures var e := Run(Opened(f, keys), keys, commands); !HasPendingChanges(e) ==> InSync(e)
  {
    RunKeepsInv(f, keys, commands);
    hide Run, FilterState.Live, UsedKeys, Opened;
  }

  /** Closing and opening the editor after applying shows exactly the keys whose shown
      pattern is not the empty one. */
  lemma ReopenAfterApply(f: FilterState, keys: seq<FilterKey>, commands: seq<Command>)
    requires Distinct(keys)
    ensures var a := Run(Opened(f, keys), keys, commands + [Apply]);
      var r := Opened(a.filter, keys);
      && (forall k :: k in UsedKeys(r.used) <==>
            exists i :: 0 <= i < |a.used| && a.used[i].key == k && a.used[i].pattern != NO_PATTERN)
      && (forall i :: 0 <= i < |r.used| ==> r.used[i].pattern == a.filter.Live(r.used[i].key))
  {
    hide Run, FilterState.Live, OpenedEntries, Inv, UsedKeys, HasPendingChanges, HasFilter;
    ApplyAfterAnyRun(f, keys, commands);
    RunKeepsInv(f, keys, commands + [Apply]);
    var a := Run(Opened(f, keys), keys, commands + [Apply]);
    OpenedInv(a.filter, keys);
    OpenedEntriesMeaning(a.filter, keys);
    forall k
      ensures k in UsedKeys(Opened(a.filter, keys).used) <==>
        exists i :: 0 <= i < |a.used| && a.used[i].key == k && a.used[i].pattern != NO_PATTERN
    {
      ShownIfNotEmpty(a, keys, k);
    }
  }

  lemma ShownIfNotEmpty(a: Editor, keys: seq<FilterKey>, k: FilterKey)
    requires Inv(a, keys) && InSync(a)
    ensures k in keys && HasFilter(a.filter.Live(k)) <==>
      exists i :: 0 <= i < |a.used| && a.used[i].key == k && a.used[i].pattern != NO_PATTERN
  {
    hide FilterState.Live;
    assert k in keys <==> k in UsedKeys(a.used) || k in a.unused;
    assert HasFilter(a.filter.Live(k)) <==> a.filter.Live(k) != NO_PATTERN;
  }

  // ---- the document -------------------------------------------------------------------------------

  lemma {:induction false} ClearKeepsConsistent(f: FilterState, keys: seq<FilterKey>)
    requires f.Consistent()
    ensures Clear(f, keys).Consistent()
  {
    if keys != [] {
      ClearKeepsConsistent(f, keys[..|keys| - 1]);
      FilterSetAgreesExactly(Clear(f, keys[..|keys| - 1]), keys[|keys| - 1], NO_PATTERN);
    }
  }

  lemma {:induction false} StoreKeepsConsistent(f: FilterState, used: seq<Entry>)
    requires f.Consistent()
    ensures Store(f, used).Consistent()
  {
    if used != [] {
      var n := |used| - 1;
      StoreKeepsConsistent(f, used[..n]);
      if used[n].pending {
        FilterSetAgreesExactly(Store(f, used[..n]), used[n].key, used[n].pattern);
      }
    }
  }

  lemma PerformKeepsConsistent(e: Editor, keys: seq<FilterKey>, c: Command)
    requires e.filter.Consistent()
    ensures Perform(e, keys, c).filter.Consistent()
  {
    hide FilterState.Consistent, Find, Without, UsedKeys, Removed, Clear, Store, Settled;
    ClearKeepsConsistent(e.filter, e.deleting);
    StoreKeepsConsistent(Clear(e.filter, e.deleting), e.used);
  }

  lemma {:induction false} RunKeepsConsistent(f: FilterState, keys: seq<FilterKey>, commands: seq<Command>)
    requires f.Consistent()
    ensures Run(Opened(f, keys), keys, commands).filter.Consistent()
  {
    hide FilterState.Consistent, Perform, OpenedEntries, Without, UsedKeys;
    if commands != [] {
      var before := commands[..|commands| - 1];
      RunKeepsConsistent(f, keys, before);
      PerformKeepsConsistent(Run(Opened(f, keys), keys, before), keys, commands[|commands| - 1]);
    }
  }

  /** Whatever was edited and applied before, safe or not: after applying, the settings agree with
      their document exactly when every shown pattern survives the notation. */
  lemma ApplyAgreesExactly(f: FilterState, keys: seq<FilterKey>, commands: seq<Command>)
    requires f.Valid() && Distinct(keys) && forall k :: k in keys
    ensures var e := Run(Opened(f, keys), keys, commands);
      ApplyAll(e).filter.Valid() <==> forall i :: 0 <= i < |e.used| ==> CodecSafe(e.used[i].pattern)
  {
    hide Run, FilterState.Valid, FilterState.Consistent, CodecSafe, ApplyAll, FilterState.Live;
    var e := Run(Opened(f, keys), keys, commands);
    assert CodecSafe(NO_PATTERN) by { EmptyIsSafe(); }
    ValidMeansConsistent(f);
    RunKeepsConsistent(f, keys, commands);
    RunKeepsInv(f, keys, commands);
    ApplySyncs(e, keys);
    ApplyKeepsConsistent(e);
    ValidMeansConsistent(ApplyAll(e).filter);
    SafeLiveMeansSafeShown(ApplyAll(e), keys);
  }

  lemma EmptyIsSafe()
    ensures CodecSafe(NO_PATTERN)
  {
  }

  lemma ApplyKeepsConsistent(e: Editor)
    requires e.filter.Consistent()
    ensures ApplyAll(e).filter.Consistent()
  {
    hide FilterState.Consistent;
    ClearKeepsConsistent(e.filter, e.deleting);
    StoreKeepsConsistent(Clear(e.filter, e.deleting), e.used);
  }

  lemma SafeLiveMeansSafeShown(e: Editor, keys: seq<FilterKey>)
    requires Inv(e, keys) && InSync(e) && forall k :: k in keys
    ensures (forall k :: CodecSafe(e.filter.Live(k))) <==> forall i :: 0 <= i < |e.used| ==> CodecSafe(e.used[i].pattern)
  {
    hide FilterState.Live;
    EmptyIsSafe();
    hide CodecSafe;
    forall k: FilterKey
      ensures (exists i :: 0 <= i < |e.used| && e.used[i].key == k && e.used[i].pattern == e.filter.Live(k)) || e.filter.Live(k) == NO_PATTERN
    {
      assert k in UsedKeys(e.used) || k in e.unused;
    }
    if forall k :: CodecSafe(e.filter.Live(k)) {
      assert forall i :: 0 <= i < |e.used| ==> CodecSafe(e.filter.Live(e.used[i].key));
    }
  }

  // ---- pending changes that change nothing -----------------------------------------------------------

  /** What is pending says what the settings say already. */
  predicate NothingNew(e: Editor) {
    && (forall i :: 0 <= i < |e.used| && e.used[i].pending ==> e.used[i].pattern == e.filter.Live(e.used[i].key))
    && (forall k :: k in e.unused && k in e.deleting ==> e.filter.Live(k) == NO_PATTERN)
  }

  /** In every run: applying leaves every setting as it was exactly when each pending entry
      shows its setting and each key to be cleared has the empty pattern. Nothing pending is the
      case in which there are none. */
  lemma ApplyChangesNothingExactly(f: FilterState, keys: seq<FilterKey>, commands: seq<Command>)
    requires Distinct(keys)
    ensures var e := Run(Opened(f, keys), keys, commands);
      && (InSync(e) <==> NothingNew(e))
      && (InSync(e) <==> forall k :: k in keys ==> ApplyAll(e).filter.Live(k) == e.filter.Live(k))
      && (!HasPendingChanges(e) ==> NothingNew(e))
  {
    RunKeepsInv(f, keys, commands);
    hide Run, ApplyAll, FilterState.Live;
    var e := Run(Opened(f, keys), keys, commands);
    InSyncMeansNothingNew(e, keys);
    ApplySyncs(e, keys);
    KeptMeansInSync(e, ApplyAll(e), keys);
  }

  lemma InSyncMeansNothingNew(e: Editor, keys: seq<FilterKey>)
    requires Inv(e, keys)
    ensures InSync(e) <==> NothingNew(e)
    ensures !HasPendingChanges(e) ==> NothingNew(e)
  {
    hide FilterState.Live, UsedKeys, Without;
  }

  lemma KeptMeansInSync(e: Editor, a: Editor, keys: seq<FilterKey>)
    requires Inv(e, keys) && InSync(a) && a.unused == e.unused && |a.used| == |e.used|
    requires forall i :: 0 <= i < |e.used| ==> a.used[i] == e.used[i].(pending := false)
    ensures InSync(e) <==> forall k :: k in keys ==> a.filter.Live(k) == e.filter.Live(k)
  {
    hide FilterState.Live;
    if InSync(e) {
      forall k | k in keys
        ensures a.filter.Live(k) == e.filter.Live(k)
      {
        assert k in UsedKeys(e.used) || k in e.unused;
        if k in UsedKeys(e.used) {
          var i :| 0 <= i < |e.used| && e.used[i].key == k;
          assert a.used[i].key == k;
        }
      }
    }
    if forall k :: k in keys ==> a.filter.Live(k) == e.filter.Live(k) {
      forall i | 0 <= i < |e.used|
        ensures e.filter.Live(e.used[i].key) == e.used[i].pattern
      {
        assert a.used[i].key == e.used[i].key;
      }
    }
  }

  /** Such a change exists for every key without a filter: adding it and deleting it again
      leaves a change pending that changes nothing. */
  lemma PendingWithoutChange(f: FilterState, keys: seq<FilterKey>, k: FilterKey)
    requires Distinct(keys) && k in keys && f.Live(k) == NO_PATTERN
    ensures var e := Run(Opened(f, keys), keys, [Add(k), Delete(k)]);
      HasPendingChanges(e) && NothingNew(e) && e.used == Opened(f, keys).used
  {
    var c, o := [Add(k), Delete(k)], Opened(f, keys);
    OpenedInv(f, keys);
    assert forall j :: 0 <= j < |o.used| ==> o.used[j].key in UsedKeys(o.used);
    AddThenDelete(o, keys, k);
    hide Inv, OpenedEntries, Perform, Without, UsedKeys;
    assert c[..1] == [Add(k)] && c[..1][..0] == [];
    assert Run(o, keys, c[..1]) == Perform(o, keys, Add(k));
    assert Run(o, keys, c) == Perform(Perform(o, keys, Add(k)), keys, Delete(k));
  }

  lemma AddThenDelete(o: Editor, keys: seq<FilterKey>, k: FilterKey)
    requires o.unused == Without(keys, UsedKeys(o.used)) && k in o.unused
    requires forall j :: 0 <= j < |o.used| ==> o.used[j].key != k
    ensures Perform(Perform(o, keys, Add(k)), keys, Delete(k)) == o.(deleting := o.deleting + [k])
  {
    hide Removed, Find, Without, UsedKeys;
    FindAppended(o.used, Entry(k, NO_PATTERN, true));
  }

  lemma {:induction false} FindAppended(used: seq<Entry>, en: Entry)
    requires forall j :: 0 <= j < |used| ==> used[j].key != en.key
    ensures Find(used + [en], en.key) == |used| && Removed(used + [en], |used|) == used
  {
    if used != [] {
      assert (used + [en])[1..] == used[1..] + [en];
      FindAppended(used[1..], en);
    }
  }

  /** The key is written or removed when the changes are applied. */
  ghost predicate Touched(e: Editor, k: FilterKey) {
    k in e.deleting || exists i :: 0 <= i < |e.used| && e.used[i].pending && e.used[i].key == k
  }

  lemma {:induction false} TextAfterClear(f: FilterState, keys: seq<FilterKey>, key: string)
    requires DistinctKeys(f.children)
    ensures DistinctKeys(Clear(f, keys).children)
    ensures forall k :: k in keys && KeyText(k) == key ==> Get(Clear(f, keys).children, key).None?
    ensures (forall k :: k in keys ==> KeyText(k) != key) ==> Get(Clear(f, keys).children, key) == Get(f.children, key)
  {
    if keys != [] {
      var n := |keys| - 1;
      TextAfterClear(f, keys[..n], key);
      TextAfterSet(Clear(f, keys[..n]), keys[n], NO_PATTERN, key);
      assert keys == keys[..n] + [keys[n]];
    }
  }

  lemma {:induction false} TextAfterStore(f: FilterState, used: seq<Entry>, key: string)
    requires DistinctKeys(f.children) && DistinctEntries(used)
    ensures DistinctKeys(Store(f, used).children)
    ensures forall i :: 0 <= i < |used| && used[i].pending && KeyText(used[i].key) == key ==>
      Get(Store(f, used).children, key) == Spelled(used[i].pattern)
    ensures (forall i :: 0 <= i < |used| && used[i].pending ==> KeyText(used[i].key) != key) ==>
      Get(Store(f, used).children, key) == Get(f.children, key)
  {
    hide KeyText, Spelled, FilterState.With, DistinctKeys, Get;
    if used != [] {
      var n := |used| - 1;
      TextAfterStore(f, used[..n], key);
      assert forall i :: 0 <= i < n ==> used[..n][i] == used[i];
      if used[n].pending {
        TextAfterSet(Store(f, used[..n]), used[n].key, used[n].pattern, key);
        forall i | 0 <= i < n
          ensures KeyText(used[i].key) != KeyText(used[n].key)
        {
          KeyTextsDiffer(used[i].key, used[n].key);
        }
      }
    }
  }

  lemma TextAfterApply(e: Editor, keys: seq<FilterKey>, k: FilterKey)
    requires Inv(e, keys) && InSync(e) && DistinctKeys(e.filter.children)
    ensures Get(ApplyAll(e).filter.children, KeyText(k)) ==
      if Touched(e, k) then Spelled(e.filter.Live(k)) else Get(e.filter.children, KeyText(k))
  {
    hide FilterState.Live, FilterState.With, WritePattern, UsedKeys, Without;
    forall j: FilterKey
      ensures KeyText(j) == KeyText(k) <==> j == k
    {
      KeyTextsDiffer(j, k);
    }
    hide KeyText;
    TextAfterClear(e.filter, e.deleting, KeyText(k));
    TextAfterStore(Clear(e.filter, e.deleting), e.used, KeyText(k));
    if k in e.deleting {
      ClearedIsShownOrEmpty(e, keys, k);
    }
  }

  lemma ClearedIsShownOrEmpty(e: Editor, keys: seq<FilterKey>, k: FilterKey)
    requires Inv(e, keys) && InSync(e) && k in e.deleting
    ensures e.filter.Live(k) == NO_PATTERN || exists i :: 0 <= i < |e.used| && e.used[i].pending && e.used[i].key == k
  {
  }

  /** When applying changes no setting, it changes no text of the document either, exactly
      when no empty text is written or cleared; whatever was edited and applied before. */
  lemma VoidApplyKeepsTextsExactly(f: FilterState, keys: seq<FilterKey>, commands: seq<Command>)
    requires f.Valid() && Distinct(keys)
    ensures var e := Run(Opened(f, keys), keys, commands);
      NothingNew(e) ==>
        ((forall key: string :: Get(ApplyAll(e).filter.children, key) == Get(e.filter.children, key)) <==>
         forall k :: Touched(e, k) ==> Get(e.filter.children, KeyText(k)) != Some(Plain("")))
  {
    hide Run, FilterState.Live, ApplyAll, Touched;
    var e := Run(Opened(f, keys), keys, commands);
    ValidMeansConsistent(f);
    RunKeepsConsistent(f, keys, commands);
    RunKeepsInv(f, keys, commands);
    InSyncMeansNothingNew(e, keys);
    if NothingNew(e) {
      forall k: FilterKey
        ensures Get(ApplyAll(e).filter.children, KeyText(k)) == Get(e.filter.children, KeyText(k)) <==>
          !(Touched(e, k) && Get(e.filter.children, KeyText(k)) == Some(Plain("")))
      {
        TextAfterApply(e, keys, k);
        assert e.filter.Written(k);
        SpelledIsNotEmpty(e.filter.Live(k));
      }
      forall key: string | forall k :: KeyText(k) != key
        ensures Get(ApplyAll(e).filter.children, key) == Get(e.filter.children, key)
      {
        OtherTextAfterApply(e, keys, key);
      }
    }
  }

  lemma {:induction false} SetSpelledKeeps(c: Children, key: string, p: Pattern)
    requires Get(c, key) == Spelled(p)
    ensures WriteFilterPattern(c, key, p) == c
  {
    if c != [] && c[0].0 != key {
      SetSpelledKeeps(c[1..], key, p);
    }
  }

  // ---- the editor as a map ------------------------------------------------------------------------

  /** What the editor shows, forgetting order and pending changes. */
  ghost predicate Shows(used: seq<Entry>, m: map<FilterKey, Pattern>) {
    && (forall i :: 0 <= i < |used| ==> used[i].key in m && m[used[i].key] == used[i].pattern)
    && (forall k :: k in m ==> exists i :: 0 <= i < |used| && used[i].key == k)
  }

  /** What a command should do to what is shown. */
  function Wanted(m: map<FilterKey, Pattern>, keys: seq<FilterKey>, c: Command): map<FilterKey, Pattern> {
    match c
    case Add(k) => if k in keys && k !in m then m[k := NO_PATTERN] else m
    case Delete(k) => m - {k}
    case SetType(k, kind) => if k in m then m[k := Pattern(kind, m[k].value)] else m
    case SetValue(k, value) => if k in m then m[k := Pattern(m[k].kind, value)] else m
    case Apply => m
  }

  function WantedAfter(m: map<FilterKey, Pattern>, keys: seq<FilterKey>, commands: seq<Command>): map<FilterKey, Pattern> {
    if commands == [] then m else Wanted(WantedAfter(m, keys, commands[..|commands| - 1]), keys, commands[|commands| - 1])
  }

  lemma EditShows(used: seq<Entry>, m: map<FilterKey, Pattern>, i: nat, p: Pattern)
    requires Shows(used, m) && DistinctEntries(used) && i < |used|
    ensures Shows(used[i := Edited(used[i], p)], m[used[i].key := p])
  {
    var r, after := used[i := Edited(used[i], p)], m[used[i].key := p];
    assert forall j :: 0 <= j < |used| ==> r[j].key == used[j].key;
    forall k | k in after
      ensures exists j :: 0 <= j < |r| && r[j].key == k
    {
      if k in m {
        var j :| 0 <= j < |used| && used[j].key == k;
        assert r[j].key == k;
      }
    }
  }

  lemma AddShows(used: seq<Entry>, m: map<FilterKey, Pattern>, k: FilterKey)
    requires Shows(used, m) && k !in m
    ensures Shows(used + [Entry(k, NO_PATTERN, true)], m[k := NO_PATTERN])
  {
    var r, after := used + [Entry(k, NO_PATTERN, true)], m[k := NO_PATTERN];
    forall g | g in after
      ensures exists j :: 0 <= j < |r| && r[j].key == g
    {
      if g == k {
        assert r[|used|].key == g;
      } else {
        var j :| 0 <= j < |used| && used[j].key == g;
        assert r[j].key == g;
      }
    }
  }

  lemma DeleteShows(used: seq<Entry>, m: map<FilterKey, Pattern>, i: nat)
    requires Shows(used, m) && DistinctEntries(used) && i < |used|
    ensures Shows(Removed(used, i), m - {used[i].key})
  {
    var r, after := Removed(used, i), m - {used[i].key};
    RemovedMeaning(used, i);
    hide Removed;
    forall j | 0 <= j < |r|
      ensures r[j].key in after && after[r[j].key] == r[j].pattern
    {
      var place := if j < i then j else j + 1;
      assert r[j] == used[place];
    }
    forall k | k in after
      ensures exists j :: 0 <= j < |r| && r[j].key == k
    {
      var j :| 0 <= j < |used| && used[j].key == k;
      var now := if j < i then j else j - 1;
      assert r[now] == used[j];
    }
  }

  lemma SettledShows(used: seq<Entry>, m: map<FilterKey, Pattern>)
    requires Shows(used, m)
    ensures Shows(Settled(used), m)
  {
    assert forall i :: 0 <= i < |used| ==> Settled(used)[i].key == used[i].key;
  }

  /** One command changes what is shown as it should, and a deletion or an addition does not depend
      on where the key stands. */
  lemma PerformShows(e: Editor, keys: seq<FilterKey>, m: map<FilterKey, Pattern>, c: Command)
    requires Inv(e, keys) && Shows(e.used, m)
    ensures Shows(Perform(e, keys, c).used, Wanted(m, keys, c))
    ensures c != Apply ==> Perform(e, keys, c).filter == e.filter
  {
    ShownAreUsed(e.used, m);
    var used := e.used;
    hide Shows, FilterState.Live, Clear, Store, Settled, Edited, Removed, UsedKeys, Without;
    match c
    case Add(k) =>
      if k in e.unused {
        AddShows(used, m, k);
      }
    case Delete(k) =>
      FoundExactly(used, m, k);
      if Find(used, k) < |used| {
        DeleteShows(used, m, Find(used, k));
      } else {
        assert m - {k} == m;
      }
    case SetType(k, kind) =>
      FoundExactly(used, m, k);
      if Find(used, k) < |used| {
        EditShows(used, m, Find(used, k), Pattern(kind, m[k].value));
      }
    case SetValue(k, value) =>
      FoundExactly(used, m, k);
      if Find(used, k) < |used| {
        EditShows(used, m, Find(used, k), Pattern(m[k].kind, value));
      }
    case Apply =>
      SettledShows(used, m);
  }

  lemma ShownAreUsed(used: seq<Entry>, m: map<FilterKey, Pattern>)
    requires Shows(used, m)
    ensures forall k :: k in m <==> k in UsedKeys(used)
  {
  }

  lemma FoundExactly(used: seq<Entry>, m: map<FilterKey, Pattern>, k: FilterKey)
    requires Shows(used, m)
    ensures Find(used, k) < |used| <==> k in m
    ensures Find(used, k) < |used| ==> m[k] == used[Find(used, k)].pattern
  {
  }

  /** What an editor that was just opened shows: the settings that count as filters. */
  function ShownOnOpening(f: FilterState, keys: seq<FilterKey>): map<FilterKey, Pattern> {
    map k | k in keys && f.Live(k) != NO_PATTERN :: f.Live(k)
  }

  lemma OpeningShows(f: FilterState, keys: seq<FilterKey>)
    requires Distinct(keys)
    ensures Shows(Opened(f, keys).used, ShownOnOpening(f, keys))
  {
    OpenedInv(f, keys);
    hide FilterState.Live, OpenedEntries, Without;
    OpenedShowsFilters(f, keys);
  }

  lemma OpenedShowsFilters(f: FilterState, keys: seq<FilterKey>)
    requires Distinct(keys)
    ensures forall k :: k in UsedKeys(OpenedEntries(f, keys)) <==> k in keys && f.Live(k) != NO_PATTERN
    ensures forall i :: 0 <= i < |OpenedEntries(f, keys)| ==>
      OpenedEntries(f, keys)[i].pattern == f.Live(OpenedEntries(f, keys)[i].key)
  {
    OpenedInv(f, keys);
    OpenedEntriesMeaning(f, keys);
  }

  /** The editor refines a map: after any commands it shows what the commands, understood as
      changes of a map from keys to patterns, ask for; and after an apply every key has just the
      setting that is shown for it, or the empty one. */
  lemma {:induction false} EditorRefinesMap(f: FilterState, keys: seq<FilterKey>, commands: seq<Command>)
    requires Distinct(keys)
    ensures var e, m := Run(Opened(f, keys), keys, commands), WantedAfter(ShownOnOpening(f, keys), keys, commands);
      && Shows(e.used, m)
      && (forall k :: k in keys ==> ApplyAll(e).filter.Live(k) == if k in m then m[k] else NO_PATTERN)
  {
    hide Shows, ShownOnOpening, Perform, Wanted, Inv, ApplyAll, FilterState.Live;
    var e, m := Run(Opened(f, keys), keys, commands), WantedAfter(ShownOnOpening(f, keys), keys, commands);
    RunKeepsInv(f, keys, commands);
    if commands == [] {
      OpeningShows(f, keys);
    } else {
      var n := |commands| - 1;
      EditorRefinesMap(f, keys, commands[..n]);
      RunKeepsInv(f, keys, commands[..n]);
      PerformShows(Run(Opened(f, keys), keys, commands[..n]), keys, WantedAfter(ShownOnOpening(f, keys), keys, commands[..n]), commands[n]);
    }
    AppliedAsShown(e, keys, m);
  }

  lemma AppliedAsShown(e: Editor, keys: seq<FilterKey>, m: map<FilterKey, Pattern>)
    requires Inv(e, keys) && Shows(e.used, m)
    ensures forall k :: k in keys ==> ApplyAll(e).filter.Live(k) == if k in m then m[k] else NO_PATTERN
  {
    hide ApplyAll, FilterState.Live;
    ShownAreUsed(e.used, m);
    forall k | k in keys
      ensures ApplyAll(e).filter.Live(k) == if k in m then m[k] else NO_PATTERN
    {
      ApplyStores(e, keys, k);
      assert k in UsedKeys(e.used) || k in e.unused;
    }
  }

  // ---- the order of the document ------------------------------------------------------------------

  function Texts(keys: seq<FilterKey>): set<string> {
    set k | k in keys :: KeyText(k)
  }

  /** The texts of the shown filters, in their order, that applying takes from the document and
      stores again. */
  function RestoredKeys(c: Children, deleting: seq<FilterKey>, used: seq<Entry>): seq<string> {
    if used == [] then []
    else
      var en := used[|used| - 1];
      RestoredKeys(c, deleting, used[..|used| - 1])
      + (if en.pending && en.key in deleting && Get(c, KeyText(en.key)).Some? then [KeyText(en.key)] else [])
  }

  /** The children with these keys, in the order of the keys. */
  function Picked(c: Children, keys: seq<string>): Children {
    if keys == [] then []
    else
      var key := keys[|keys| - 1];
      Picked(c, keys[..|keys| - 1]) + (match Get(c, key) case Some(v) => [(key, v)] case None => [])
  }

  predicate EndsWithKeys(c: Children, keys: seq<string>) {
    |keys| <= |c| && forall i :: 0 <= i < |keys| ==> c[|c| - |keys| + i].0 == keys[i]
  }

  lemma {:induction false} PutAbsentAppends(c: Children, key: string, text: string)
    requires Get(c, key).None?
    ensures Put(c, key, text) == c + [(key, Plain(text))]
  {
    if c != [] {
      PutAbsentAppends(c[1..], key, text);
    }
  }

  lemma {:induction false} RemoveIsExcept(c: Children, keys: set<string>, key: string)
    requires DistinctKeys(Except(c, keys))
    ensures Remove(Except(c, keys), key) == Except(c, keys + {key})
  {
    if c != [] {
      if c[0].0 in keys {
        assert Except(c, keys) == Except(c[1..], keys) && Except(c, keys + {key}) == Except(c[1..], keys + {key});
        RemoveIsExcept(c[1..], keys, key);
      } else if c[0].0 == key {
        assert Except(c, keys)[1..] == Except(c[1..], keys);
        SetSpelledKeeps(Except(c[1..], keys), key, NO_PATTERN);
        RemoveIsExcept(c[1..], keys, key);
      } else {
        assert Except(c, keys)[1..] == Except(c[1..], keys);
        RemoveIsExcept(c[1..], keys, key);
      }
    }
  }

  lemma {:induction false} ExceptNothing(c: Children)
    ensures Except(c, {}) == c
  {
    if c != [] {
      ExceptNothing(c[1..]);
    }
  }

  lemma {:induction false} ClearIsExcept(f: FilterState, keys: seq<FilterKey>)
    requires DistinctKeys(f.children)
    ensures Clear(f, keys).children == Except(f.children, Texts(keys))
  {
    hide Except, FilterState.With, Texts, DistinctKeys;
    if keys == [] {
      NoTexts();
      ExceptNothing(f.children);
    } else {
      var before, k := keys[..|keys| - 1], keys[|keys| - 1];
      ClearIsExcept(f, before);
      TextAfterClear(f, before, "");
      ClearOne(Clear(f, before), f.children, before, k);
      assert keys == before + [k];
    }
  }

  lemma NoTexts()
    ensures Texts([]) == {}
  {
  }

  lemma ClearOne(g: FilterState, c: Children, before: seq<FilterKey>, k: FilterKey)
    requires DistinctKeys(g.children) && g.children == Except(c, Texts(before))
    ensures g.With(k, NO_PATTERN).children == Except(c, Texts(before + [k]))
  {
    hide Except, Remove, Put, DistinctKeys, KeyText, WritePattern;
    RemoveIsExcept(c, Texts(before), KeyText(k));
    assert Texts(before + [k]) == Texts(before) + {KeyText(k)};
  }

  /** The child that storing an entry puts behind the others, if it was cleared. */
  function Restored(c: Children, deleting: seq<FilterKey>, en: Entry): Children {
    var v := Get(c, KeyText(en.key));
    if en.pending && en.key in deleting && v.Some? then [(KeyText(en.key), v.value)] else []
  }

  /** Storing what the document says puts the cleared children behind the others, in the order in
      which they are stored, and moves nothing else. */
  lemma {:induction false} StoreMovesRestored(f: FilterState, deleting: seq<FilterKey>, used: seq<Entry>)
    requires DistinctKeys(f.children) && DistinctEntries(used)
    requires forall i :: 0 <= i < |used| && used[i].pending ==> Get(f.children, KeyText(used[i].key)) == Spelled(used[i].pattern)
    ensures Store(Clear(f, deleting), used).children
         == Except(f.children, Texts(deleting)) + Picked(f.children, RestoredKeys(f.children, deleting, used))
  {
    hide Picked, Except, Texts, Clear, DistinctKeys, KeyText, Get, Spelled, FilterState.With, Restored;
    if used == [] {
      ClearIsExcept(f, deleting);
      PickedNothing(f.children);
    } else {
      StoreMovesRestored(f, deleting, used[..|used| - 1]);
      StoreAppends(f, deleting, used);
      PickedAppends(f.children, deleting, used);
    }
  }

  lemma PickedNothing(c: Children)
    ensures Picked(c, []) == []
  {
  }

  lemma PickedAppends(c: Children, deleting: seq<FilterKey>, used: seq<Entry>)
    requires used != []
    ensures Picked(c, RestoredKeys(c, deleting, used))
         == Picked(c, RestoredKeys(c, deleting, used[..|used| - 1])) + Restored(c, deleting, used[|used| - 1])
  {
    hide Get, KeyText;
    var before, key := RestoredKeys(c, deleting, used[..|used| - 1]), KeyText(used[|used| - 1].key);
    assert (before + [key])[..|before|] == before;
    assert before + [] == before;
  }

  lemma StoreAppends(f: FilterState, deleting: seq<FilterKey>, used: seq<Entry>)
    requires DistinctKeys(f.children) && DistinctEntries(used) && used != []
    requires var en := used[|used| - 1]; en.pending ==> Get(f.children, KeyText(en.key)) == Spelled(en.pattern)
    ensures Store(Clear(f, deleting), used).children
         == Store(Clear(f, deleting), used[..|used| - 1]).children + Restored(f.children, deleting, used[|used| - 1])
  {
    hide WritePattern, Clear, KeyText, Put, Remove, DistinctKeys, Get;
    var n, en := |used| - 1, used[|used| - 1];
    var key := KeyText(en.key);
    forall k: FilterKey
      ensures KeyText(k) == key <==> k == en.key
    {
      KeyTextsDiffer(k, en.key);
    }
    TextAfterClear(f, deleting, key);
    TextAfterStore(Clear(f, deleting), used[..n], key);
    var before := Store(Clear(f, deleting), used[..n]).children;
    if en.pending {
      assert Get(before, key) == if en.key in deleting then None else Get(f.children, key);
      if en.key in deleting && Get(f.children, key).Some? {
        PutAbsentAppends(before, key, WritePattern(en.pattern));
      } else {
        SetSpelledKeeps(before, key, en.pattern);
      }
    }
  }

  lemma {:induction false} ChildAt(c: Children, i: nat)
    requires DistinctKeys(c) && i < |c|
    ensures Get(c, c[i].0) == Some(c[i].1)
    ensures forall j :: 0 <= j < |c| && c[j].0 == c[i].0 ==> j == i
  {
    if i > 0 {
      ChildAt(c[1..], i - 1);
      assert Get(c[1..], c[i].0).Some?;
      assert forall j :: 1 <= j < |c| ==> c[j] == c[1..][j - 1];
    } else {
      AbsentKey(c[1..], c[0].0);
      assert forall j :: 1 <= j < |c| ==> c[j] == c[1..][j - 1];
    }
  }

  lemma {:induction false} AbsentKey(c: Children, key: string)
    requires Get(c, key).None?
    ensures forall j :: 0 <= j < |c| ==> c[j].0 != key
  {
    if c != [] {
      AbsentKey(c[1..], key);
      assert forall j :: 1 <= j < |c| ==> c[j] == c[1..][j - 1];
    }
  }

  lemma {:induction false} ExceptSplit(c: Children, keys: set<string>, m: nat)
    requires m <= |c|
    requires forall i :: 0 <= i < m ==> c[i].0 !in keys
    requires forall i :: m <= i < |c| ==> c[i].0 in keys
    ensures Except(c, keys) == c[..m]
  {
    if c != [] {
      assert forall i :: 1 <= i < |c| ==> c[i] == c[1..][i - 1];
      ExceptSplit(c[1..], keys, if m == 0 then 0 else m - 1);
      assert m > 0 ==> c[..m] == [c[0]] + c[1..][..m - 1];
    }
  }

  lemma {:induction false} PickedAt(c: Children, keys: seq<string>)
    requires forall key :: key in keys ==> Get(c, key).Some?
    ensures |Picked(c, keys)| == |keys|
    ensures forall i :: 0 <= i < |keys| ==> Get(c, keys[i]).Some? && Picked(c, keys)[i] == (keys[i], Get(c, keys[i]).value)
  {
    if keys != [] {
      PickedAt(c, keys[..|keys| - 1]);
    }
  }

  lemma StandLast(c: Children, all: set<string>, keys: seq<string>)
    requires DistinctKeys(c) && EndsWithKeys(c, keys)
    requires forall key :: key in keys <==> key in all && Get(c, key).Some?
    ensures Except(c, all) == c[..|c| - |keys|]
    ensures Picked(c, keys) == c[|c| - |keys|..]
  {
    hide Except, Picked, DistinctKeys, Get;
    PickedAt(c, keys);
    var m := |c| - |keys|;
    forall i | 0 <= i < |c|
      ensures m <= i ==> c[i].0 == keys[i - m]
      ensures Get(c, c[i].0) == Some(c[i].1)
      ensures c[i].0 in keys ==> m <= i
    {
      assert m <= i ==> c[m + (i - m)].0 == keys[i - m];
      ChildAt(c, i);
      if j :| 0 <= j < |keys| && keys[j] == c[i].0 {
        assert c[m + j].0 == c[i].0;
      }
    }
    ExceptSplit(c, all, m);
    forall i | 0 <= i < |keys|
      ensures Picked(c, keys)[i] == c[m..][i]
    {
      assert c[m + i].0 == keys[i] && c[m..][i] == c[m + i];
    }
  }

  /** Moving the children of a key set behind the others changes nothing exactly when they already
      stand there in that order. */
  lemma MovedLastExactly(c: Children, all: set<string>, keys: seq<string>)
    requires DistinctKeys(c)
    requires forall key :: key in keys <==> key in all && Get(c, key).Some?
    ensures Except(c, all) + Picked(c, keys) == c <==> EndsWithKeys(c, keys)
  {
    hide Except, Picked, DistinctKeys, Get;
    PickedAt(c, keys);
    var m := |c| - |keys|;
    var rest := Except(c, all);
    if rest + Picked(c, keys) == c {
      assert |rest| == m;
      forall i | 0 <= i < |keys|
        ensures c[m + i].0 == keys[i]
      {
        assert (rest + Picked(c, keys))[m + i] == Picked(c, keys)[i];
      }
    }
    if EndsWithKeys(c, keys) {
      StandLast(c, all, keys);
    }
  }

  lemma {:induction false} RestoredMeaning(c: Children, deleting: seq<FilterKey>, used: seq<Entry>, key: string)
    ensures key in RestoredKeys(c, deleting, used) <==>
      Get(c, key).Some? && exists i :: 0 <= i < |used| && used[i].pending && used[i].key in deleting && KeyText(used[i].key) == key
  {
    if used != [] {
      var n := |used| - 1;
      RestoredMeaning(c, deleting, used[..n], key);
      assert forall i :: 0 <= i < n ==> used[..n][i] == used[i];
      hide KeyText;
    }
  }

  /** In every run: applying leaves the settings and the document, its order included, exactly when
      it changes no setting, touches no empty text, and the cleared filters that it stores again
      already stand last in the document, in the order in which they are shown. */
  lemma ApplyKeepsFilterExactly(f: FilterState, keys: seq<FilterKey>, commands: seq<Command>)
    requires f.Valid() && Distinct(keys)
    ensures var e := Run(Opened(f, keys), keys, commands);
      ApplyAll(e).filter == e.filter <==>
        && NothingNew(e)
        && (forall k :: Touched(e, k) ==> Get(e.filter.children, KeyText(k)) != Some(Plain("")))
        && EndsWithKeys(e.filter.children, RestoredKeys(e.filter.children, e.deleting, e.used))
  {
    hide Run, ApplyAll, Touched, NothingNew, EndsWithKeys, RestoredKeys, FilterState.Live, FilterState.Valid, InSync, Inv;
    ApplyChangesNothingExactly(f, keys, commands);
    VoidApplyKeepsTextsExactly(f, keys, commands);
    ValidMeansConsistent(f);
    RunKeepsConsistent(f, keys, commands);
    RunKeepsInv(f, keys, commands);
    var e := Run(Opened(f, keys), keys, commands);
    if NothingNew(e) && forall k :: Touched(e, k) ==> Get(e.filter.children, KeyText(k)) != Some(Plain("")) {
      VoidApplyMovesRestored(e, keys);
    }
  }

  lemma VoidApplyMovesRestored(e: Editor, keys: seq<FilterKey>)
    requires Inv(e, keys) && InSync(e) && e.filter.Consistent()
    requires forall k :: Touched(e, k) ==> Get(e.filter.children, KeyText(k)) != Some(Plain(""))
    ensures ApplyAll(e).filter == e.filter <==>
      EndsWithKeys(e.filter.children, RestoredKeys(e.filter.children, e.deleting, e.used))
  {
    var c, restored := e.filter.children, RestoredKeys(e.filter.children, e.deleting, e.used);
    forall k: FilterKey
      ensures Touched(e, k) ==> Get(c, KeyText(k)) == Spelled(e.filter.Live(k))
      ensures k in e.deleting ==> e.filter.Live(k) == NO_PATTERN || exists i :: 0 <= i < |e.used| && e.used[i].pending && e.used[i].key == k
      ensures ApplyAll(e).filter.Live(k) == e.filter.Live(k)
    {
      assert e.filter.Written(k);
      if k in e.deleting {
        ClearedIsShownOrEmpty(e, keys, k);
      }
      ApplyKeepsLive(e, keys, k);
    }
    assert ApplyAll(e).filter == e.filter <==> ApplyAll(e).filter.children == c by {
      SameLives(ApplyAll(e).filter, e.filter);
    }
    hide FilterState.Live, FilterState.With, EndsWithKeys, Picked, Except, KeyText, WritePattern;
    assert forall i :: 0 <= i < |e.used| && e.used[i].pending ==> Touched(e, e.used[i].key);
    StoreMovesRestored(e.filter, e.deleting, e.used);
    forall key: string
      ensures key in restored <==> key in Texts(e.deleting) && Get(c, key).Some?
    {
      RestoredMeaning(c, e.deleting, e.used, key);
    }
    MovedLastExactly(c, Texts(e.deleting), restored);
  }

  lemma SameLives(a: FilterState, b: FilterState)
    requires forall k :: a.Live(k) == b.Live(k)
    ensures a == b <==> a.children == b.children
  {
    assert a.Live(ProcessName) == b.Live(ProcessName) && a.Live(WindowClass) == b.Live(WindowClass)
        && a.Live(WindowTitle) == b.Live(WindowTitle);
  }

  lemma ApplyKeepsLive(e: Editor, keys: seq<FilterKey>, k: FilterKey)
    requires Inv(e, keys) && InSync(e)
    ensures ApplyAll(e).filter.Live(k) == e.filter.Live(k)
  {
    hide Clear, Store, FilterState.Live;
    ClearMeaning(e.filter, e.deleting, k);
    StoreMeaning(Clear(e.filter, e.deleting), e.used, k);
    if k in e.deleting {
      ClearedIsShownOrEmpty(e, keys, k);
    }
  }

  lemma SpelledIsNotEmpty(p: Pattern)
    ensures Spelled(p) != Some(Plain(""))
  {
  }

  lemma OtherTextAfterApply(e: Editor, keys: seq<FilterKey>, key: string)
    requires Inv(e, keys) && DistinctKeys(e.filter.children) && forall k :: KeyText(k) != key
    ensures Get(ApplyAll(e).filter.children, key) == Get(e.filter.children, key)
  {
    TextAfterClear(e.filter, e.deleting, key);
    TextAfterStore(Clear(e.filter, e.deleting), e.used, key);
  }

  // ---- the list of offered keys, edited in place ------------------------------------------------------

  lemma {:induction false} RemoveFromWithout(keys: seq<FilterKey>, taken: set<FilterKey>, i: nat)
    requires Distinct(keys) && i < |Without(keys, taken)|
    ensures var u := Without(keys, taken); Removed(u, i) == Without(keys, taken + {u[i]})
  {
    assert keys != [];
    hide Without, Removed;
    var first := if keys[0] in taken then [] else [keys[0]];
    var rest := Without(keys[1..], taken);
    WithoutCons(keys, taken, first);
    if i < |first| {
      RemoveNow(keys, taken, rest);
    } else {
      RemoveFromWithout(keys[1..], taken, i - |first|);
      RemoveLater(keys, taken, first, i);
    }
  }

  lemma RemoveNow(keys: seq<FilterKey>, taken: set<FilterKey>, rest: seq<FilterKey>)
    requires Distinct(keys) && keys != [] && keys[0] !in taken && rest == Without(keys[1..], taken)
    ensures Removed([keys[0]] + rest, 0) == Without(keys, taken + {keys[0]})
  {
    hide Without, Removed;
    WithoutAbsent(keys[1..], taken, keys[0]);
    WithoutCons(keys, taken + {keys[0]}, []);
    RemoveHead(keys[0], rest);
  }

  lemma RemoveLater(keys: seq<FilterKey>, taken: set<FilterKey>, first: seq<FilterKey>, i: nat)
    requires Distinct(keys) && keys != [] && first == if keys[0] in taken then [] else [keys[0]]
    requires |first| <= i < |first| + |Without(keys[1..], taken)|
    requires var rest := Without(keys[1..], taken);
      Removed(rest, i - |first|) == Without(keys[1..], taken + {rest[i - |first|]})
    ensures var u := first + Without(keys[1..], taken);
      Removed(u, i) == Without(keys, taken + {u[i]})
  {
    hide Without, Removed;
    var rest := Without(keys[1..], taken);
    var k := rest[i - |first|];
    assert k in keys[1..];
    WithoutCons(keys, taken + {k}, first);
    RemoveShift(first, rest, i);
  }

  lemma RemoveHead<T>(x: T, rest: seq<T>)
    ensures Removed([x] + rest, 0) == [] + rest
  {
  }

  lemma WithoutCons(keys: seq<FilterKey>, taken: set<FilterKey>, first: seq<FilterKey>)
    requires keys != [] && first == if keys[0] in taken then [] else [keys[0]]
    ensures Without(keys, taken) == first + Without(keys[1..], taken)
  {
  }

  lemma RemoveShift<T>(first: seq<T>, rest: seq<T>, i: nat)
    requires |first| <= i < |first| + |rest|
    ensures (first + rest)[i] == rest[i - |first|]
    ensures Removed(first + rest, i) == first + Removed(rest, i - |first|)
  {
  }

  lemma InsertShift<T>(first: seq<T>, rest: seq<T>, i: nat, x: T)
    requires i <= |rest|
    ensures (first + rest)[..|first| + i] + [x] + (first + rest)[|first| + i..] == first + (rest[..i] + [x] + rest[i..])
  {
  }

  lemma {:induction false} WithoutAbsent(keys: seq<FilterKey>, taken: set<FilterKey>, key: FilterKey)
    requires key !in keys
    ensures Without(keys, taken) == Without(keys, taken + {key}) == Without(keys, taken - {key})
  {
    if keys != [] {
      WithoutAbsent(keys[1..], taken, key);
    }
  }

  /** How many offered keys precede a key. */
  function InsertionIndex(keys: seq<FilterKey>, taken: set<FilterKey>, key: FilterKey): (n: nat)
    ensures n <= |Without(keys, taken)|
  {
    if keys == [] || keys[0] == key then 0
    else (if keys[0] in taken then 0 else 1) + InsertionIndex(keys[1..], taken, key)
  }

  lemma {:induction false} InsertIntoWithout(keys: seq<FilterKey>, taken: set<FilterKey>, key: FilterKey)
    requires Distinct(keys) && key in keys && key in taken
    ensures var u, n := Without(keys, taken), InsertionIndex(keys, taken, key);
      u[..n] + [key] + u[n..] == Without(keys, taken - {key})
  {
    hide Without;
    var first := if keys[0] in taken then [] else [keys[0]];
    var rest := Without(keys[1..], taken);
    WithoutCons(keys, taken, first);
    if keys[0] == key {
      WithoutAbsent(keys[1..], taken, key);
      WithoutCons(keys, taken - {key}, [key]);
      assert rest[..0] + [key] + rest[0..] == [key] + rest;
    } else {
      WithoutCons(keys, taken - {key}, first);
      InsertIntoWithout(keys[1..], taken, key);
      InsertShift(first, rest, InsertionIndex(keys[1..], taken, key), key);
    }
  }

  // ---- the objects -----------------------------------------------------------------------------------

  class StringFilterViewModel {
    const filter: Filter
    const key: FilterKey
    var valueMatchType: MatchType
    var value: string
    var hasPendingChanges: bool

    ghost function Abs(): Entry
      reads this
    {
      Entry(key, Pattern(valueMatchType, value), hasPendingChanges)
    }

    constructor (filter: Filter, key: FilterKey, newElem: bool)
      ensures this.filter == filter
      ensures Abs() == if newElem then Entry(key, NO_PATTERN, true) else Entry(key, filter.State().Live(key), false)
    {
      this.filter, this.key, hasPendingChanges := filter, key, newElem;
      if newElem {
        valueMatchType, value := Contains, "";
      } else {
        var p := Setting(filter, key);
        valueMatchType, value := p.kind, p.value;
      }
    }

    method SetValueMatchType(kind: MatchType)
      modifies this
      ensures Abs() == old(Edited(Abs(), Pattern(kind, value)))
    {
      if valueMatchType != kind {
        valueMatchType, hasPendingChanges := kind, true;
      }
    }

    method SetValue(text: string)
      modifies this
      ensures Abs() == old(Edited(Abs(), Pattern(valueMatchType, text)))
    {
      if value != text {
        value, hasPendingChanges := text, true;
      }
    }

    method ApplyChanges() returns (applied: bool)
      modifies this, filter, filter.node
      ensures applied == old(hasPendingChanges)
      ensures Abs() == old(Abs()).(pending := false)
      ensures filter.State() ==
        if applied then old(filter.State()).With(key, old(Abs()).pattern) else old(filter.State())
    {
      if !hasPendingChanges {
        return false;
      }
      filter.Set(key, Pattern(valueMatchType, value));
      hasPendingChanges := false;
      return true;
    }
  }

  ghost function Entries(filters: seq<StringFilterViewModel>): (r: seq<Entry>)
    reads filters
    ensures |r| == |filters|
    ensures forall i :: 0 <= i < |r| ==> r[i] == filters[i].Abs()
  {
    if filters == [] then [] else [filters[0].Abs()] + Entries(filters[1..])
  }

  lemma EntriesAppend(filters: seq<StringFilterViewModel>, f: StringFilterViewModel)
    ensures Entries(filters + [f]) == Entries(filters) + [f.Abs()]
  {
  }

  lemma EntriesOfNone()
    ensures Entries([]) == []
  {
  }

  lemma OpenedParts(s: FilterState, keys: seq<FilterKey>)
    requires Distinct(keys)
    ensures var used := OpenedEntries(s, keys);
      && Opened(s, keys).used == used
      && Opened(s, keys).unused == Without(keys, UsedKeys(used))
      && forall i :: 0 <= i < |keys| ==> (keys[i] in UsedKeys(used) <==> HasFilter(s.Live(keys[i])))
  {
    OpenedInv(s, keys);
  }

  lemma OpenStep(s: FilterState, keys: seq<FilterKey>, i: nat, entries: seq<Entry>, unused: seq<FilterKey>, taken: set<FilterKey>)
    requires i < |keys| && (keys[i] in taken <==> HasFilter(s.Live(keys[i])))
    ensures var k := keys[i];
      if HasFilter(s.Live(k)) then
        && entries + OpenedEntries(s, keys[i..]) == (entries + [Entry(k, s.Live(k), false)]) + OpenedEntries(s, keys[i + 1..])
        && Without(keys[i..], taken) == Without(keys[i + 1..], taken)
      else
        && OpenedEntries(s, keys[i..]) == OpenedEntries(s, keys[i + 1..])
        && unused + Without(keys[i..], taken) == (unused + [k]) + Without(keys[i + 1..], taken)
  {
    assert keys[i..][1..] == keys[i + 1..];
    assert [] + OpenedEntries(s, keys[i + 1..]) == OpenedEntries(s, keys[i + 1..]);
  }

  lemma OpenEnd(s: FilterState, keys: seq<FilterKey>, taken: set<FilterKey>)
    ensures OpenedEntries(s, keys[|keys|..]) == [] && Without(keys[|keys|..], taken) == []
    ensures OpenedEntries(s, keys[0..]) == OpenedEntries(s, keys) && Without(keys[0..], taken) == Without(keys, taken)
  {
    assert keys[0..] == keys;
  }

  /** The loop over all keys that fills the shown filters and the offered keys. */
  method PartitionKeys(filter: Filter, keys: seq<FilterKey>)
    returns (filters: seq<StringFilterViewModel>, unused: seq<FilterKey>)
    requires Distinct(keys)
    ensures fresh(filters) && forall f :: f in filters ==> f.filter == filter
    ensures Entries(filters) == Opened(filter.State(), keys).used
    ensures unused == Opened(filter.State(), keys).unused
  {
    ghost var s := filter.State();
    ghost var taken := UsedKeys(OpenedEntries(s, keys));
    OpenedParts(s, keys);
    hide Opened, OpenedEntries, Without, HasFilter, UsedKeys, WriteFilterPattern, Entries, Distinct, Setting, FilterState.Live,
      Filter.State;
    EntriesOfNone();
    filters, unused := [], [];
    ghost var entries: seq<Entry> := [];
    OpenEnd(s, keys, taken);
    var i := 0;
    while i < |keys|
      invariant i <= |keys| && filter.State() == s
      invariant fresh(filters) && forall f :: f in filters ==> f.filter == filter
      invariant Entries(filters) == entries
      invariant entries + OpenedEntries(s, keys[i..]) == OpenedEntries(s, keys)
      invariant unused + Without(keys[i..], taken) == Without(keys, taken)
    {
      OpenStep(s, keys, i, entries, unused, taken);
      var key := keys[i];
      if HasFilter(Setting(filter, key)) {
        var f := new StringFilterViewModel(filter, key, false);
        EntriesAppend(filters, f);
        filters, entries := filters + [f], entries + [Entry(key, s.Live(key), false)];
      } else {
        unused := unused + [key];
      }
      i := i + 1;
    }
  }

  function Setting(filter: Filter, key: FilterKey): (p: Pattern)
    reads filter, filter.node
    ensures p == filter.State().Live(key)
  {
    match key
    case ProcessName => filter.processImageName
    case WindowClass => filter.windowClass
    case WindowTitle => filter.windowTitle
  }

  lemma EntriesRemove(filters: seq<StringFilterViewModel>, i: nat)
    requires i < |filters|
    ensures Entries(Removed(filters, i)) == Removed(Entries(filters), i)
  {
    hide Entries, Removed;
    RemovedMeaning(filters, i);
    RemovedMeaning(Entries(filters), i);
    var all, removed := Entries(filters), Entries(Removed(filters, i));
    forall j | 0 <= j < |removed|
      ensures removed[j] == Removed(all, i)[j]
    {
      assert Removed(filters, i)[j] == filters[if j < i then j else j + 1];
    }
  }

  lemma FindMeaning(used: seq<Entry>, key: FilterKey)
    ensures Find(used, key) < |used| <==> key in UsedKeys(used)
  {
    if Find(used, key) < |used| {
      assert used[Find(used, key)].key == key;
    }
  }

  lemma AllKeysDistinct()
    ensures Distinct(ALL_KEYS)
  {
  }

  lemma AddMeaning(e: Editor, keys: seq<FilterKey>, key: FilterKey)
    requires Inv(e, keys)
    ensures Inv(Perform(e, keys, Add(key)), keys)
    ensures Perform(e, keys, Add(key)) == if key in e.unused then AddKey(e, keys, key) else e
  {
    PerformKeepsInv(e, keys, Add(key));
  }

  lemma DeleteMeaning(e: Editor, keys: seq<FilterKey>, key: FilterKey)
    requires Inv(e, keys)
    ensures Inv(Perform(e, keys, Delete(key)), keys)
    ensures Find(e.used, key) < |e.used| <==> key in UsedKeys(e.used)
    ensures Perform(e, keys, Delete(key)) ==
      if Find(e.used, key) < |e.used| then DeleteAt(e, keys, Find(e.used, key)) else e
  {
    PerformKeepsInv(e, keys, Delete(key));
    FindMeaning(e.used, key);
  }

  /** Removing the found key in place gives the new list of offered keys. */
  lemma AddKeyInPlace(e: Editor, keys: seq<FilterKey>, i: nat)
    requires Inv(e, keys) && Distinct(keys) && i < |e.unused|
    ensures AddKey(e, keys, e.unused[i]) ==
      Editor(e.filter, e.used + [Entry(e.unused[i], NO_PATTERN, true)], Removed(e.unused, i), e.deleting)
  {
    hide Without;
    AddInv(e, keys, e.unused[i]);
    RemoveFromWithout(keys, UsedKeys(e.used), i);
  }

  /** Inserting the freed key before the first later offered key gives the new list. */
  lemma DeleteAtInPlace(e: Editor, keys: seq<FilterKey>, i: nat)
    requires Inv(e, keys) && Distinct(keys) && i < |e.used|
    ensures var key := e.used[i].key;
      var n := InsertionIndex(keys, UsedKeys(e.used), key);
      && n <= |e.unused|
      && e.unused == Without(keys, UsedKeys(e.used)) && key in keys
      && DeleteAt(e, keys, i) == Editor(e.filter, Removed(e.used, i),
           e.unused[..n] + [key] + e.unused[n..], e.deleting + [key])
  {
    hide Without;
    UsedKeysOfRemoval(e.used, i);
    InsertIntoWithout(keys, UsedKeys(e.used), e.used[i].key);
  }

  /** The first place of a key among the offered keys, or their number. */
  method IndexOfKey(unused: seq<FilterKey>, key: FilterKey) returns (i: nat)
    ensures i <= |unused| && (i < |unused| <==> key in unused)
    ensures i < |unused| ==> unused[i] == key
  {
    i := 0;
    while i < |unused| && unused[i] != key
      invariant i <= |unused| && forall j :: 0 <= j < i ==> unused[j] != key
    {
      i := i + 1;
    }
  }

  /** The first shown filter of a key, or their number. */
  method IndexOfFilter(filters: seq<StringFilterViewModel>, key: FilterKey) returns (i: nat)
    ensures i == Find(Entries(filters), key)
  {
    hide Entries;
    i := 0;
    while i < |filters| && filters[i].key != key
      invariant i <= |filters| && forall j :: 0 <= j < i ==> Entries(filters)[j].key != key
    {
      i := i + 1;
    }
  }

  /** The nested loops over all keys and the offered keys. */
  method CountOfferedBefore(keys: seq<FilterKey>, unused: seq<FilterKey>, key: FilterKey, ghost taken: set<FilterKey>)
    returns (n: nat)
    requires unused == Without(keys, taken) && key in keys
    ensures n == InsertionIndex(keys, taken, key)
  {
    hide Without;
    n := 0;
    var i := 0;
    assert keys[0..] == keys;
    while i < |keys| && keys[i] != key
      invariant 0 <= i <= |keys| && key in keys[i..]
      invariant n + InsertionIndex(keys[i..], taken, key) == InsertionIndex(keys, taken, key)
    {
      assert keys[i..][1..] == keys[i + 1..];
      var j := IndexOfKey(unused, keys[i]);
      if j < |unused| {
        n := n + 1;
      }
      i := i + 1;
    }
  }

  lemma EntriesDiffer(filters: seq<StringFilterViewModel>, e: Editor, keys: seq<FilterKey>)
    requires Inv(e, keys) && e.used == Entries(filters)
    ensures forall i, j :: 0 <= i < j < |filters| ==> filters[i] != filters[j]
  {
    hide Entries;
    var used := e.used;
    forall i, j | 0 <= i < j < |filters|
      ensures filters[i] != filters[j]
    {
      assert used[i].key != used[j].key;
    }
  }

  lemma StoreStart(f: FilterState, used: seq<Entry>)
    ensures Store(f, used[..0]) == f && !AnyPending(used[..0]) && used[..|used|] == used
  {
  }

  lemma StoreStep(f: FilterState, used: seq<Entry>, i: nat)
    requires i < |used|
    ensures var g := Store(f, used[..i]);
      Store(f, used[..i + 1]) == if used[i].pending then g.With(used[i].key, used[i].pattern) else g
    ensures AnyPending(used[..i + 1]) <==> AnyPending(used[..i]) || used[i].pending
  {
    assert used[..i + 1][..i] == used[..i];
    assert used[..i + 1][i] == used[i];
    assert forall j :: 0 <= j < i ==> used[..i + 1][j] == used[..i][j];
  }

  class RuleViewModel {
    const filter: Filter
    var filters: seq<StringFilterViewModel>
    var unusedFilterKeys: seq<FilterKey>
    var deletingKeys: seq<FilterKey>

    ghost function Abs(): Editor
      reads this, filter, filter.node, filters
    {
      Editor(filter.State(), Entries(filters), unusedFilterKeys, deletingKeys)
    }

    ghost predicate Valid()
      reads this, filter, filter.node, filters
    {
      && (forall f :: f in filters ==> f.filter == filter)
      && Inv(Abs(), ALL_KEYS)
    }

    constructor (filter: Filter)
      ensures this.filter == filter && Valid() && fresh(filters)
      ensures Abs() == Opened(filter.State(), ALL_KEYS)
    {
      OpenedInv(filter.State(), ALL_KEYS);
      hide Inv, OpenedEntries, Without, HasFilter, UsedKeys, HasPendingChanges;
      this.filter := filter;
      var shown, offered := PartitionKeys(filter, ALL_KEYS);
      filters, unusedFilterKeys, deletingKeys := shown, offered, [];
    }

    method HasPending() returns (pending: bool)
      ensures pending <==> HasPendingChanges(Abs())
    {
      hide Entries;
      if deletingKeys != [] {
        return true;
      }
      for i := 0 to |filters|
        invariant forall j :: 0 <= j < i ==> !Entries(filters)[j].pending
      {
        if filters[i].hasPendingChanges {
          assert Entries(filters)[i].pending;
          return true;
        }
      }
      pending := false;
    }

    /** False stands for the invalid argument error. */
    method OnAddFilterRequested(key: FilterKey) returns (ok: bool)
      requires Valid()
      modifies this
      ensures Valid() && forall f :: f in filters ==> f in old(filters) || fresh(f)
      ensures ok == old(key in unusedFilterKeys)
      ensures Abs() == old(Perform(Abs(), ALL_KEYS, Add(key)))
    {
      hide Inv, Without, UsedKeys, HasFilter, Entries, Perform, AddKey, Distinct;
      ghost var before, after := Abs(), Perform(Abs(), ALL_KEYS, Add(key));
      AddMeaning(before, ALL_KEYS, key);
      AllKeysDistinct();
      var target := IndexOfKey(unusedFilterKeys, key);
      if target == |unusedFilterKeys| {
        return false;
      }
      AddKeyInPlace(before, ALL_KEYS, target);
      var f := new StringFilterViewModel(filter, key, true);
      EntriesAppend(filters, f);
      var shown, offered := filters + [f], Removed(unusedFilterKeys, target);
      assert after == Editor(before.filter, Entries(shown), offered, deletingKeys);
      hide Removed;
      filters, unusedFilterKeys := shown, offered;
      assert Abs() == after;
      return true;
    }

    method OnDeleteRequested(key: FilterKey) returns (ok: bool)
      requires Valid()
      modifies this
      ensures Valid() && forall f :: f in filters ==> f in old(filters)
      ensures ok == old(key in UsedKeys(Entries(filters)))
      ensures Abs() == old(Perform(Abs(), ALL_KEYS, Delete(key)))
    {
      hide Inv, Without, UsedKeys, HasFilter, DeleteAt, Entries, InsertionIndex, Perform, Find, Distinct;
      ghost var before, after := Abs(), Perform(Abs(), ALL_KEYS, Delete(key));
      DeleteMeaning(before, ALL_KEYS, key);
      AllKeysDistinct();
      var index := IndexOfFilter(filters, key);
      if index == |filters| {
        return false;
      }
      DeleteAtInPlace(before, ALL_KEYS, index);
      var insertion := CountOfferedBefore(ALL_KEYS, unusedFilterKeys, key, UsedKeys(before.used));
      var shown := Removed(filters, index);
      var offered := unusedFilterKeys[..insertion] + [key] + unusedFilterKeys[insertion..];
      EntriesRemove(filters, index);
      RemovedMeaning(filters, index);
      assert after == Editor(before.filter, Entries(shown), offered, deletingKeys + [key]);
      hide Removed;
      filters, unusedFilterKeys, deletingKeys := shown, offered, deletingKeys + [key];
      assert Abs() == after;
      return true;
    }

    /** The user picks a match type for one of the shown filters. */
    method SetValueMatchTypeAt(i: nat, kind: MatchType)
      requires Valid() && i < |filters|
      modifies filters[i]
      ensures Valid()
      ensures Abs() == old(EditAt(Abs(), i, Abs().used[i].pattern.(kind := kind)))
    {
      hide Entries, Inv;
      ghost var before := Abs();
      EditInv(before, ALL_KEYS, i, before.used[i].pattern.(kind := kind));
      EntriesDiffer(filters, before, ALL_KEYS);
      filters[i].SetValueMatchType(kind);
      assert Abs().used == EditAt(before, i, before.used[i].pattern.(kind := kind)).used;
    }

    /** The user types a value for one of the shown filters. */
    method SetValueAt(i: nat, text: string)
      requires Valid() && i < |filters|
      modifies filters[i]
      ensures Valid()
      ensures Abs() == old(EditAt(Abs(), i, Abs().used[i].pattern.(value := text)))
    {
      hide Entries, Inv;
      ghost var before := Abs();
      EditInv(before, ALL_KEYS, i, before.used[i].pattern.(value := text));
      EntriesDiffer(filters, before, ALL_KEYS);
      filters[i].SetValue(text);
      assert Abs().used == EditAt(before, i, before.used[i].pattern.(value := text)).used;
    }

    method ClearDeleting() returns (changed: bool)
      requires Valid()
      modifies this`deletingKeys, filter, filter.node
      ensures changed == old(deletingKeys != []) && deletingKeys == []
      ensures filter.State() == old(Clear(filter.State(), deletingKeys))
    {
      changed := deletingKeys != [];
      ghost var before := filter.State();
      var i := 0;
      while i < |deletingKeys|
        invariant i <= |deletingKeys| && unchanged(this)
        invariant filter.State() == Clear(before, deletingKeys[..i])
      {
        assert deletingKeys[..i + 1][..i] == deletingKeys[..i];
        filter.Set(deletingKeys[i], NO_PATTERN);
        i := i + 1;
      }
      assert deletingKeys[..|deletingKeys|] == deletingKeys;
      deletingKeys := [];
    }

    method StoreFilters() returns (changed: bool)
      requires forall i, j :: 0 <= i < j < |filters| ==> filters[i] != filters[j]
      requires forall f :: f in filters ==> f.filter == filter
      modifies filter, filter.node, filters
      ensures changed == old(AnyPending(Entries(filters)))
      ensures filter.State() == old(Store(filter.State(), Entries(filters)))
      ensures Entries(filters) == old(Settled(Entries(filters)))
    {
      hide Entries, FilterState.With, Store, AnyPending;
      ghost var before, used := filter.State(), Entries(filters);
      changed := false;
      StoreStart(before, used);
      var i := 0;
      while i < |filters|
        invariant i <= |filters|
        invariant forall j :: 0 <= j < i ==> filters[j].Abs() == used[j].(pending := false)
        invariant forall j :: i <= j < |filters| ==> filters[j].Abs() == used[j]
        invariant filter.State() == Store(before, used[..i])
        invariant changed <==> AnyPending(used[..i])
      {
        StoreStep(before, used, i);
        assert filters[i].Abs() == used[i];
        var applied := filters[i].ApplyChanges();
        changed := changed || applied;
        i := i + 1;
      }
      assert i == |used| && used[..i] == used;
      assert Entries(filters) == Settled(used);
    }

    /** Clears the settings of the deleted keys first, then stores the pending filters. */
    method ApplyChanges() returns (changed: bool)
      requires Valid()
      modifies this`deletingKeys, filter, filter.node, filters
      ensures Valid()
      ensures changed == old(HasPendingChanges(Abs()))
      ensures Abs() == old(ApplyAll(Abs()))
    {
      hide Inv, Clear, Store, Entries, Settled;
      ghost var before := Abs();
      ApplySyncs(before, ALL_KEYS);
      EntriesDiffer(filters, before, ALL_KEYS);
      changed := ClearDeleting();
      assert Entries(filters) == before.used;
      var stored := StoreFilters();
      changed := changed || stored;
    }
  }
}
