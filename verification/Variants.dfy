/** What setting an intent leaves of its variants, priorities and flags included: the whole variant at
    every path (pkg/datastore/transaction_rpc.go, pkg/tree/ops/getorcreatechilds.go). */
module Variants {
  import opened Base
  import opened Tree
  import opened Paths
  import opened Growth
  import opened Insertion
  import opened Transactions
  import L = Leaves
  import S = LeafStore
  import P = Precedence

  // ---------------------------------------------------------------- one update, one variant

  /** A key leaf on the way: what is there is un-deleted as it is, what is not there is added. */
  function Ensured(v: Value, le: L.LeafEntry, before: Option<L.LeafEntry>): L.LeafEntry {
    if before.Some? then before.value.DropDelete() else le.(value := v)
  }

  function Upserted(le: L.LeafEntry, before: Option<L.LeafEntry>): L.LeafEntry {
    if before.None? then le
    else if before.value.SameUpdate(le) then before.value.DropDelete()
    else before.value.MarkUpdate(le)
  }

  /** What adding an update at p makes of its owner's variant at q. */
  function Stepped(c: Ctx, names: seq<string>, p: Path, le: L.LeafEntry, q: Path, before: Option<L.LeafEntry>): Option<L.LeafEntry> {
    var key := KeyLeafAt(c, names, p, q);
    var ensured := if key.Some? then Some(Ensured(key.value, le, before)) else before;
    if q == p then Some(Upserted(le, ensured)) else ensured
  }

  lemma {:induction false} AddedVariant(les: seq<L.LeafEntry>, le: L.LeafEntry, o: string)
    requires L.UniqueOwners(les)
    ensures L.UniqueOwners(S.Added(les, le))
    ensures L.ByOwner(S.Added(les, le), o) ==
            if o == le.owner then Some(Upserted(le, L.ByOwner(les, o))) else L.ByOwner(les, o)
  {
    S.AddedPerOwner(les, le, o);
    if o == le.owner {
      var i := if L.IndexOf(les, o).Some? then L.IndexOf(les, o).value else |les|;
      S.ByOwnerUnique(S.Added(les, le), o, i);
    }
  }

  lemma {:induction false} KeyLeafVariant(child: Entry, v: Value, le: L.LeafEntry, o: string)
    requires OwnersUnique(child)
    ensures var n := KeyLeafEnsured(child, v, le);
            && n.children == child.children && OwnersUnique(n)
            && L.ByOwner(n.les, o) == if o == le.owner then Some(Ensured(v, le, L.ByOwner(child.les, o))) else L.ByOwner(child.les, o)
  {
    UndeletedPerOwner(child, le.owner, o);
    UndeletedPerOwner(child, le.owner, le.owner);
    AddedVariant(child.les, le.(value := v), o);
    KeyLeafUnique(child, v, le);
  }

  lemma {:induction false} KeyEnsuredVariant(e: Entry, k: string, v: Value, le: L.LeafEntry, q: Path, o: string)
    requires OwnersUnique(e) && o != DEFAULT && le.owner != DEFAULT
    ensures OwnersUnique(KeyEnsured(e, k, v, le))
    ensures VariantAt(KeyEnsured(e, k, v, le), q, o) ==
            if q == [k] && o == le.owner then Some(Ensured(v, le, VariantAt(e, q, o))) else VariantAt(e, q, o)
  {
    var f := Ctx(Field(v.typ), 0);
    var child := if k in e.children then e.children[k] else NewEntry(f);
    var n := KeyLeafEnsured(child, v, le);
    NewEntryEmpty(f, if q == [] then [] else q[1..], o);
    KeyEnsuredUnique(e, k, v, le);
    KeyLeafVariant(child, v, le, o);
    assert KeyEnsured(e, k, v, le) == e.(children := e.children[k := n]);
    ChildReplaced(e, k, n, q, o);
    if q != [] && q[0] == k {
      assert q == [k] <==> q[1..] == [];
      assert VariantAt(child, q[1..], o) == VariantAt(e, q, o);
      SameBelow(child, n, q[1..], o);
    }
  }

  lemma {:induction false} KeysEnsuredVariant(e: Entry, keys: seq<string>, vals: seq<Value>, le: L.LeafEntry, q: Path, o: string)
    requires OwnersUnique(e) && o != DEFAULT && le.owner != DEFAULT && |keys| == |vals| && Distinct(keys)
    ensures OwnersUnique(KeysEnsured(e, keys, vals, le))
    ensures VariantAt(KeysEnsured(e, keys, vals, le), q, o) ==
            if |q| == 1 && KeyIndex(keys, q[0]).Some? && o == le.owner
            then Some(Ensured(vals[KeyIndex(keys, q[0]).value], le, VariantAt(e, q, o))) else VariantAt(e, q, o)
    decreases |keys|
  {
    if keys != [] {
      var n := |keys| - 1;
      KeyEnsuredVariant(e, keys[n], vals[n], le, q, o);
      KeysEnsuredVariant(KeyEnsured(e, keys[n], vals[n], le), keys[..n], vals[..n], le, q, o);
      if |q| == 1 && q[0] == keys[n] {
        assert q == [keys[n]] && keys[n] !in keys[..n];
        assert KeyIndex(keys[..n], q[0]).None?;
      }
    }
  }

  lemma {:induction false} PreparedVariant(e: Entry, c: Ctx, names: seq<string>, le: L.LeafEntry, q: Path, o: string)
    requires OwnersUnique(e) && o != DEFAULT && le.owner != DEFAULT
    ensures OwnersUnique(Prepared(e, c, names, le))
    ensures VariantAt(Prepared(e, c, names, le), q, o) ==
            if |q| == 1 && ElementKey(c, names, q[0]).Some? && o == le.owner
            then Some(Ensured(ElementKey(c, names, q[0]).value, le, VariantAt(e, q, o))) else VariantAt(e, q, o)
  {
    if IsElement(c, names) {
      KeyNamesDistinct(c);
      KeysEnsuredVariant(e, KeyNames(c), Insertion.KeyValues(c, names), le, q, o);
    }
  }

  /** An insertion, seen whole: every variant of its owner, and of no other, is stepped. */
  lemma {:induction false} AddUpdateVariant(e: Entry, c: Ctx, names: seq<string>, p: Path, le: L.LeafEntry, q: Path, o: string)
    requires OwnersUnique(e) && o != DEFAULT && le.owner != DEFAULT && AddUpdate(e, c, names, p, le).Some?
    ensures OwnersUnique(AddUpdate(e, c, names, p, le).value)
    ensures VariantAt(AddUpdate(e, c, names, p, le).value, q, o) ==
            if o == le.owner then Stepped(c, names, p, le, q, VariantAt(e, q, o)) else VariantAt(e, q, o)
    decreases p
  {
    var e1 := Prepared(e, c, names, le);
    PreparedVariant(e, c, names, le, q, o);
    if p == [] {
      AddedVariant(e1.les, le, o);
    } else {
      var d := ChildCtx(c, p[0]).value;
      var child, names' := ChildOrNew(e1, d, p[0]), Below(d, names, p[0]);
      var q' := if q == [] then [] else q[1..];
      NewEntryEmpty(d, q', o);
      AddUpdateVariant(child, d, names', p[1..], le, q', o);
      ChildReplaced(e1, p[0], AddUpdate(child, d, names', p[1..], le).value, q, o);
      if q != [] && q[0] == p[0] && o == le.owner {
        SteppedBelow(c, names, p, le, q, VariantAt(e, q, o), VariantAt(child, q', o), o);
      }
    }
  }

  lemma {:induction false} SteppedBelow(c: Ctx, names: seq<string>, p: Path, le: L.LeafEntry, q: Path,
                                        before: Option<L.LeafEntry>, prepared: Option<L.LeafEntry>, o: string)
    requires p != [] && q != [] && p[0] == q[0] && ChildCtx(c, p[0]).Some? && o == le.owner
    requires prepared == if |q| == 1 && ElementKey(c, names, q[0]).Some? then Some(Ensured(ElementKey(c, names, q[0]).value, le, before)) else before
    ensures var d := ChildCtx(c, p[0]).value;
            Stepped(d, Below(d, names, p[0]), p[1..], le, q[1..], prepared) == Stepped(c, names, p, le, q, before)
  {
    var d := ChildCtx(c, p[0]).value;
    assert q == p <==> q[1..] == p[1..];
    if |q| == 1 {
      assert q[1..] == [];
      assert KeyLeafAt(d, Below(d, names, p[0]), p[1..], []).None?;
    }
  }

  // ---------------------------------------------------------------- one intent, one variant

  function Marked(orphan: bool, before: Option<L.LeafEntry>): Option<L.LeafEntry> {
    if before.Some? then Some(before.value.MarkDelete(orphan)) else None
  }

  /** The variant after the first n updates of an intent. */
  function Folded(c: Ctx, t: TxIntent, n: nat, q: Path, start: Option<L.LeafEntry>): Option<L.LeafEntry>
    requires n <= |t.updates|
  {
    if n == 0 then start
    else Stepped(c, [], t.updates[n - 1].0, Variant(t, t.updates[n - 1].1), q, Folded(c, t, n - 1, q, start))
  }

  /** What setting an intent makes of its variant at q. */
  function Set(c: Ctx, t: TxIntent, q: Path, before: Option<L.LeafEntry>): Option<L.LeafEntry> {
    if t.delete then Marked(t.orphan, before) else Folded(c, t, |t.updates|, q, Marked(t.orphan, before))
  }

  lemma {:induction false} FoldedIsAdded(e: Entry, c: Ctx, t: TxIntent, n: nat, q: Path, o: string)
    requires OwnersUnique(e) && t.name != DEFAULT && o != DEFAULT && n <= |t.updates| && AddAll(e, c, ToUpdates(t)[..n]).Some?
    ensures OwnersUnique(AddAll(e, c, ToUpdates(t)[..n]).value)
    ensures VariantAt(AddAll(e, c, ToUpdates(t)[..n]).value, q, o) ==
            if o == t.name then Folded(c, t, n, q, VariantAt(e, q, o)) else VariantAt(e, q, o)
    decreases n
  {
    if n > 0 {
      AddAllStep(e, c, t, n);
      FoldedIsAdded(e, c, t, n - 1, q, o);
      AddUpdateVariant(AddAll(e, c, ToUpdates(t)[..n - 1]).value, c, [], t.updates[n - 1].0, Variant(t, t.updates[n - 1].1), q, o);
    }
  }

  lemma {:induction false} SetIsApplied(e: Entry, c: Ctx, t: TxIntent, q: Path, o: string)
    requires OwnersUnique(e) && t.name != DEFAULT && o != DEFAULT && ApplyIntent(e, c, t).Some?
    ensures OwnersUnique(ApplyIntent(e, c, t).value)
    ensures VariantAt(ApplyIntent(e, c, t).value, q, o) == if o == t.name then Set(c, t, q, VariantAt(e, q, o)) else VariantAt(e, q, o)
  {
    MarkAllUnique(e, t.name, t.orphan);
    MarkAllObserved(e, t.name, t.orphan, q, o);
    if !t.delete {
      assert ToUpdates(t)[..|t.updates|] == ToUpdates(t);
      FoldedIsAdded(MarkAll(e, t.name, t.orphan), c, t, |t.updates|, q, o);
    }
  }

  /** A transaction, seen whole: every intent's variants are those its own setting makes of them, in
      any order of the intents. */
  lemma {:induction false} TransactionVariant(e: Entry, c: Ctx, ts: seq<TxIntent>, i: nat, q: Path)
    requires OwnersUnique(e) && DistinctNames(ts) && (forall j | 0 <= j < |ts| :: ts[j].name != DEFAULT)
    requires ApplyIntents(e, c, ts).Some? && i < |ts|
    ensures OwnersUnique(ApplyIntents(e, c, ts).value)
    ensures VariantAt(ApplyIntents(e, c, ts).value, q, ts[i].name) == Set(c, ts[i], q, VariantAt(e, q, ts[i].name))
    decreases |ts|
  {
    var n := |ts| - 1;
    if i < n {
      TransactionVariant(e, c, ts[..n], i, q);
    } else {
      TransactionOthers(e, c, ts[..n], q, ts[n].name);
    }
    LastApplied(e, c, ts, q, ts[i].name);
  }

  lemma {:induction false} LastApplied(e: Entry, c: Ctx, ts: seq<TxIntent>, q: Path, o: string)
    requires ts != [] && ApplyIntents(e, c, ts).Some? && ts[|ts| - 1].name != DEFAULT && o != DEFAULT
    requires OwnersUnique(ApplyIntents(e, c, ts[..|ts| - 1]).value)
    ensures var t, m := ts[|ts| - 1], ApplyIntents(e, c, ts[..|ts| - 1]).value;
            && OwnersUnique(ApplyIntents(e, c, ts).value)
            && VariantAt(ApplyIntents(e, c, ts).value, q, o) == if o == t.name then Set(c, t, q, VariantAt(m, q, o)) else VariantAt(m, q, o)
  {
    SetIsApplied(ApplyIntents(e, c, ts[..|ts| - 1]).value, c, ts[|ts| - 1], q, o);
  }

  lemma {:induction false} TransactionOthers(e: Entry, c: Ctx, ts: seq<TxIntent>, q: Path, o: string)
    requires OwnersUnique(e) && (forall j | 0 <= j < |ts| :: ts[j].name != DEFAULT) && o != DEFAULT
    requires ApplyIntents(e, c, ts).Some?
    ensures OwnersUnique(ApplyIntents(e, c, ts).value)
    ensures (forall j | 0 <= j < |ts| :: ts[j].name != o) ==> VariantAt(ApplyIntents(e, c, ts).value, q, o) == VariantAt(e, q, o)
    decreases |ts|
  {
    if ts != [] {
      var n := |ts| - 1;
      TransactionOthers(e, c, ts[..n], q, o);
      SetIsApplied(ApplyIntents(e, c, ts[..n]).value, c, ts[n], q, o);
    }
  }

  // ---------------------------------------------------------------- priorities and flags

  /** The intent updates exactly this path. */
  predicate Updates(t: TxIntent, n: nat, q: Path)
    requires n <= |t.updates|
  {
    exists i | 0 <= i < n :: t.updates[i].0 == q
  }

  /** The intent was applied before and is not reverted: its values do not count as new. */
  predicate Settled(t: TxIntent) {
    t.nonRevertive && t.previouslyApplied
  }

  /** A live variant of an intent, if it held `start`, marked, before. */
  predicate Explained(t: TxIntent, updated: bool, start: Option<L.LeafEntry>, l: L.LeafEntry) {
    && (updated || start.None? ==> l.priority == t.priority)
    && (!updated && start.Some? ==> l == start.value.DropDelete())
    && (start.None? ==> l.isNew || l.isUpdated || Settled(t))
    && (start.Some? && !l.isUpdated ==> l.value == start.value.value && l.priority == start.value.priority)
    && (l.isNew ==> start.None? && !Settled(t) && !l.isUpdated)
    && (l.onlyIntended ==> l.isUpdated && start.Some? && start.value.onlyIntended)
    && l.owner == t.name
  }

  /** A variant as marking leaves it. */
  predicate AsMarked(t: TxIntent, l: L.LeafEntry) {
    l.owner == t.name && l.delete && !l.isNew && !l.isUpdated
  }

  lemma {:induction false} UpsertExplained(t: TxIntent, updated: bool, v: Value, start: Option<L.LeafEntry>, before: Option<L.LeafEntry>)
    requires start.Some? ==> AsMarked(t, start.value)
    requires before.None? ==> start.None?
    requires before.Some? ==> before == start || (!before.value.delete && Explained(t, updated, start, before.value))
    ensures var l := Upserted(Variant(t, v), before); !l.delete && Explained(t, true, start, l)
  {
  }

  lemma {:induction false} EnsureExplained(t: TxIntent, updated: bool, v: Value, w: Value, start: Option<L.LeafEntry>, before: Option<L.LeafEntry>)
    requires start.Some? ==> AsMarked(t, start.value)
    requires before.None? ==> start.None?
    requires before.Some? ==> (before == start && !updated) || (!before.value.delete && Explained(t, updated, start, before.value))
    requires before.None? ==> !updated
    ensures var l := Ensured(v, Variant(t, w), before); !l.delete && Explained(t, updated, start, l)
  {
  }

  /** The variant after n updates is untouched, or live and explained. */
  lemma {:induction false} FoldedExplained(c: Ctx, t: TxIntent, n: nat, q: Path, start: Option<L.LeafEntry>)
    requires n <= |t.updates| && (start.Some? ==> AsMarked(t, start.value))
    ensures var l := Folded(c, t, n, q, start);
            && (l.None? ==> start.None? && !Updates(t, n, q))
            && (l.Some? ==> (l == start && !Updates(t, n, q)) || (!l.value.delete && Explained(t, Updates(t, n, q), start, l.value)))
    decreases n
  {
    if n > 0 {
      FoldedExplained(c, t, n - 1, q, start);
      var before, p, v := Folded(c, t, n - 1, q, start), t.updates[n - 1].0, t.updates[n - 1].1;
      assert Updates(t, n, q) <==> Updates(t, n - 1, q) || p == q;
      var key, updated := KeyLeafAt(c, [], p, q), Updates(t, n - 1, q);
      if key.Some? {
        EnsureExplained(t, updated, key.value, v, start, before);
        UpsertExplained(t, updated, v, start, Some(Ensured(key.value, Variant(t, v), before)));
      } else {
        UpsertExplained(t, updated, v, start, before);
      }
    }
  }

  /** The priority of a set intent's live variant is the intent's, if and only if the intent updates
      that path itself, or held nothing there, or held it at that priority: a key leaf that is only
      un-deleted on the way keeps the priority it had. */
  lemma {:induction false} PriorityExactly(c: Ctx, t: TxIntent, q: Path, before: Option<L.LeafEntry>)
    requires before.Some? ==> before.value.owner == t.name
    requires Set(c, t, q, before).Some? && !Set(c, t, q, before).value.delete
    ensures Set(c, t, q, before).value.priority == t.priority <==>
            Updates(t, |t.updates|, q) || before.None? || before.value.priority == t.priority
  {
    FoldedExplained(c, t, |t.updates|, q, Marked(t.orphan, before));
  }

  /** It counts as new or updated, so that it is sent, unless nothing about it changed, or the
      intent is not reverted and was applied before. */
  lemma {:induction false} ChangeIsFlagged(c: Ctx, t: TxIntent, q: Path, before: Option<L.LeafEntry>)
    requires before.Some? ==> before.value.owner == t.name
    requires Set(c, t, q, before).Some? && !Set(c, t, q, before).value.delete
    ensures var l := Set(c, t, q, before).value;
            && (l.isNew ==> before.None? && !Settled(t) && !l.isUpdated)
            && (l.onlyIntended ==> l.isUpdated && before.Some? && (t.orphan || before.value.onlyIntended))
            && (l.isNew || l.isUpdated ||
                if before.None? then Settled(t) else l.value == before.value.value && l.priority == before.value.priority)
  {
    FoldedExplained(c, t, |t.updates|, q, Marked(t.orphan, before));
  }

  lemma {:induction false} OwnVariant(e: Entry, q: Path, o: string)
    ensures VariantAt(e, q, o).Some? ==> VariantAt(e, q, o).value.owner == o
  {
  }

  /** In the tree of a transaction every live variant of a set intent has that priority and those
      flags. */
  lemma {:induction false} TransactionRanks(e: Entry, c: Ctx, ts: seq<TxIntent>, i: nat, q: Path)
    requires OwnersUnique(e) && DistinctNames(ts) && (forall j | 0 <= j < |ts| :: ts[j].name != DEFAULT)
    requires ApplyIntents(e, c, ts).Some? && i < |ts| && LiveAt(ApplyIntents(e, c, ts).value, q, ts[i].name).Some?
    ensures var t, before, l := ts[i], VariantAt(e, q, ts[i].name), VariantAt(ApplyIntents(e, c, ts).value, q, ts[i].name).value;
            && (l.priority == t.priority <==> Updates(t, |t.updates|, q) || before.None? || before.value.priority == t.priority)
            && (l.isNew ==> before.None? && !Settled(t) && !l.isUpdated)
            && (l.isNew || l.isUpdated ||
                if before.None? then Settled(t) else l.value == before.value.value && l.priority == before.value.priority)
  {
    TransactionVariant(e, c, ts, i, q);
    OwnVariant(e, q, ts[i].name);
    PriorityExactly(c, ts[i], q, VariantAt(e, q, ts[i].name));
    ChangeIsFlagged(c, ts[i], q, VariantAt(e, q, ts[i].name));
  }

  /** A list "l" with key "k" and the leaf "x". */
  function WideRoot(): Ctx {
    Ctx(Container([], false, map["l" := WideList()], map[]), 0)
  }

  function WideList(): Schema {
    Container(["k"], false, map["k" := Field("string"), "x" := Field("string")], map[])
  }

  lemma {:induction false} KeyOfX()
    ensures KeyLeafAt(WideRoot(), [], ["l", "1", "x"], ["l", "1", "k"]) == Some(Value("string", "1"))
  {
    var list, inside := Ctx(WideList(), 0), Ctx(WideList(), 1);
    assert ["k"][1..] == [] && Alphabetical([]) == [];
    assert Alphabetical(["k"]) == ["k"];
    assert ["l", "1", "x"][1..] == ["1", "x"] && ["1", "x"][1..] == ["x"] && ["l", "1", "k"][1..] == ["1", "k"] && ["1", "k"][1..] == ["k"];
    assert ElementKey(inside, ["1"], "k") == Some(Value("string", "1"));
    assert KeyLeafAt(inside, ["1"], ["x"], ["k"]) == Some(Value("string", "1"));
    assert ChildCtx(list, "1") == Some(inside) && [] + ["1"] == ["1"];
    assert KeyLeafAt(list, [], ["1", "x"], ["1", "k"]) == Some(Value("string", "1"));
    assert ChildCtx(WideRoot(), "l") == Some(list);
  }

  /** The failing input: intent "a" is set again at priority 20 with only the leaf "x" of element
      "1"; its key leaf, held at priority 10, is back at priority 10. */
  lemma {:induction false} KeyLeafKeepsItsPriority(v: Value)
    ensures var t := TxIntent("a", 20, false, false, false, false, [(["l", "1", "x"], v)]);
            var before := L.LeafEntry("a", 10, Value("string", "1"), false, false, false, false, false);
            Set(WideRoot(), t, ["l", "1", "k"], Some(before)) == Some(before)
  {
    var t := TxIntent("a", 20, false, false, false, false, [(["l", "1", "x"], v)]);
    KeyOfX();
    assert ["l", "1", "x"][2] != ["l", "1", "k"][2];
    assert t.updates[0].0 != ["l", "1", "k"];
    var start := Marked(false, Some(L.LeafEntry("a", 10, Value("string", "1"), false, false, false, false, false)));
    assert Folded(WideRoot(), t, 0, ["l", "1", "k"], start) == start;
  }

  // ---------------------------------------------------------------- what the marks lead to

  /** A variant marked deleted stays on the device if and only if it is orphaned. */
  lemma {:induction false} OrphanSurvives(les: seq<L.LeafEntry>, owner: string, orphan: bool)
    requires L.UniqueOwners(les) && IsIntent(owner) && L.ByOwner(les, owner).Some?
    ensures var l := L.ByOwner(S.Marked(les, owner, orphan), owner);
            l.Some? && l.value.delete && (l.value.Survives() <==> orphan || L.ByOwner(les, owner).value.onlyIntended)
  {
    S.MarkedPerOwner(les, owner, orphan, owner);
  }

  lemma {:induction false} LeaderIsHighest(les: seq<L.LeafEntry>, i: nat)
    requires i < |les| && forall j | 0 <= j < |les| && j != i :: les[i].priority < les[j].priority
    ensures L.ScanPrefix(les, |les|).highest == Some(i)
  {
    L.HighestIsFirstMin(les, |les|);
  }

  /** A leaf led by a live intent cannot be deleted. */
  lemma {:induction false} LedNotDeletable(les: seq<L.LeafEntry>, i: nat)
    requires L.UniqueOwners(les) && i < |les| && L.ScanPrefix(les, |les|).highest == Some(i)
    requires IsIntent(les[i].owner) && !les[i].delete && !les[i].explicitDelete
    ensures !L.CanDelete(les)
  {
    assert les[i].Survives();
    if L.OnlyRunningMaybeDefault(les) && |les| == 2 {
      var r, d := L.IndexOf(les, RUNNING).value, L.IndexOf(les, DEFAULT).value;
      assert r != i && d != i && r != d;
    }
  }

  /** A non-revertive intent that leads its leaf is sent when it is set to something else, and not
      when it is set to what it was. */
  lemma {:induction false} NonRevertiveSentExactly(les: seq<L.LeafEntry>, le: L.LeafEntry, nonRevertive: set<string>)
    requires L.UniqueOwners(les) && IsIntent(le.owner) && !le.delete && !le.explicitDelete && le.owner in nonRevertive
    requires var b := L.ByOwner(les, le.owner); b.Some? && !b.value.isNew && !b.value.isUpdated && !b.value.explicitDelete
    requires forall j | 0 <= j < |les| && les[j].owner != le.owner :: le.priority < les[j].priority
    ensures var u := P.LeafUpdate(S.Added(les, le), nonRevertive);
            && (u.Some? <==> !L.ByOwner(les, le.owner).value.SameUpdate(le))
            && (u.Some? ==> u.value.SameUpdate(le))
  {
    var les', i := S.Added(les, le), L.IndexOf(les, le.owner).value;
    AddedVariant(les, le, le.owner);
    assert les'[i].SameUpdate(le) && !les'[i].delete && !les'[i].explicitDelete;
    LeaderIsHighest(les', i);
    LedNotDeletable(les', i);
  }
}
