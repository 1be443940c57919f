/** What a transaction, or a revert after a sync, finally does to the device
    (pkg/datastore/transaction_rpc.go, pkg/datastore/sync.go): the trees they look at meet what the
    results about deletes and updates ask for. */
module Outcomes {
  import opened Base
  import opened Tree
  import opened Paths
  import opened Growth
  import opened Insertion
  import opened Transactions
  import opened Placement
  import opened Shapes
  import X = Export
  import R = Ranks
  import V = Variants
  import Elements
  import Southbound
  import Aggregation
  import Convergence
  import F = ConflictFree
  import L = Leaves
  import S = LeafStore
  import P = Precedence
  import E = Persist
  import Y = Sync

  // ---------------------------------------------------------------- which transactions go through

  predicate KnownPaths(c: Ctx, t: TxIntent) {
    t.delete || forall i | 0 <= i < |t.updates| :: CtxAt(c, t.updates[i].0).Some?
  }

  lemma {:induction false} AddAllSucceeds(e: Entry, c: Ctx, us: seq<Update>)
    ensures AddAll(e, c, us).Some? <==> forall i | 0 <= i < |us| :: CtxAt(c, us[i].path).Some?
    decreases |us|
  {
    if us != [] {
      var front, u := us[..|us| - 1], us[|us| - 1];
      AddAllSucceeds(e, c, front);
      assert forall i | 0 <= i < |front| :: front[i] == us[i];
      if AddAll(e, c, front).Some? {
        AddUpdateSucceeds(AddAll(e, c, front).value, c, [], u.path, u.le);
      }
    }
  }

  lemma {:induction false} ApplyIntentSucceeds(e: Entry, c: Ctx, t: TxIntent)
    ensures ApplyIntent(e, c, t).Some? <==> KnownPaths(c, t)
  {
    AddAllSucceeds(MarkAll(e, t.name, t.orphan), c, ToUpdates(t));
    assert forall i | 0 <= i < |t.updates| :: ToUpdates(t)[i].path == t.updates[i].0;
  }

  /** A transaction can be applied exactly when the schema knows the paths of its updates. */
  lemma {:induction false} TransactionSucceeds(e: Entry, c: Ctx, ts: seq<TxIntent>)
    ensures ApplyIntents(e, c, ts).Some? <==> forall i | 0 <= i < |ts| :: KnownPaths(c, ts[i])
    decreases |ts|
  {
    if ts != [] {
      var front, t := ts[..|ts| - 1], ts[|ts| - 1];
      TransactionSucceeds(e, c, front);
      assert forall i | 0 <= i < |front| :: front[i] == ts[i];
      if ApplyIntents(e, c, front).Some? {
        ApplyIntentSucceeds(ApplyIntents(e, c, front).value, c, t);
      }
    }
  }

  // ---------------------------------------------------------------- ranks

  /** What the intent brings ranks before running. */
  predicate Ranked(t: TxIntent) {
    t.delete || t.updates == [] || t.priority < RUNNING_PRIO
  }

  ghost predicate StoreRanked(store: Store) {
    forall o | o in store :: store[o].priority < RUNNING_PRIO
  }

  ghost predicate Orderly(c: Ctx, ts: seq<TxIntent>) {
    Runnable(c, ts) && forall i | 0 <= i < |ts| :: IsIntent(ts[i].name) && Ranked(ts[i]) && Placed(c, ts[i].updates)
  }

  lemma {:induction false} ApplyIntentFine(e: Entry, c: Ctx, w: R.Care, t: TxIntent)
    requires R.Fine(e, c, w) && CtxOk(c) && IsIntent(t.name) && Ranked(t) && Placed(c, t.updates) && ApplyIntent(e, c, t).Some?
    ensures R.Fine(ApplyIntent(e, c, t).value, c, w)
  {
    R.MarkAllFine(e, c, w, t.name, t.orphan);
    if !t.delete {
      var us := ToUpdates(t);
      forall i | 0 <= i < |us|
        ensures R.Addable(us[i].le, w.calm) && CtxAt(c, us[i].path).Some? && !R.NoValueHere(CtxAt(c, us[i].path).value)
      {
        assert PlacedIn(c, t.updates, t.updates[i].0, t.updates[i].1);
      }
      R.AddAllFine(MarkAll(e, t.name, t.orphan), c, w, us);
    }
  }

  /** A transaction keeps the tree well formed, ranks included. */
  lemma {:induction false} TransactionFine(e: Entry, c: Ctx, w: R.Care, ts: seq<TxIntent>)
    requires R.Fine(e, c, w) && CtxOk(c) && Orderly(c, ts) && ApplyIntents(e, c, ts).Some?
    ensures R.Fine(ApplyIntents(e, c, ts).value, c, w)
    decreases |ts|
  {
    if ts != [] {
      var front, t := ts[..|ts| - 1], ts[|ts| - 1];
      assert Orderly(c, front) by {
        assert forall i | 0 <= i < |front| :: front[i] == ts[i];
      }
      TransactionFine(e, c, w, front);
      ApplyIntentFine(ApplyIntents(e, c, front).value, c, w, t);
    }
  }

  lemma {:induction false} SavedRanked(e: Entry, c: Ctx, ts: seq<TxIntent>, i: nat)
    requires TreeOk(e, c) && Orderly(c, ts) && ApplyIntents(e, c, ts).Some? && i < |ts|
    requires Leaves(ApplyIntents(e, c, ts).value, ts[i].name) != map[]
    ensures ts[i].priority < RUNNING_PRIO
  {
    var e', t := ApplyIntents(e, c, ts).value, ts[i];
    var q :| q in Leaves(e', t.name);
    LeavesAt(e', t.name, q);
    ApplyIntentsOwn(e, c, ts, q, i);
  }

  lemma StoreStaysRanked(c: Ctx, store: Store, e: Entry, ts: seq<TxIntent>, n: nat)
    requires StoreRanked(store) && TreeOk(e, c) && Orderly(c, ts) && ApplyIntents(e, c, ts).Some? && n <= |ts|
    ensures StoreRanked(StoreAfter(store, ApplyIntents(e, c, ts).value, ts[..n]))
  {
    var e' := ApplyIntents(e, c, ts).value;
    var after := StoreAfter(store, e', ts[..n]);
    forall o | o in after ensures after[o].priority < RUNNING_PRIO {
      if Named(ts[..n], o) {
        var i: nat :| i < n && ts[..n][i].name == o;
        StoreAfterOwn(store, e', ts[..n], i);
        SavedRanked(e, c, ts, i);
      } else {
        StoreAfterOthers(store, e', ts[..n], o);
      }
    }
  }

  // ---------------------------------------------------------------- who stays below a list element keeps its keys

  ghost predicate SurvivesAt(e: Entry, p: Path, o: string) {
    VariantAt(e, p, o).Some? && VariantAt(e, p, o).value.Survives()
  }

  ghost predicate SurvivorsKeyed(e: Entry, c: Ctx) {
    forall o, p, q | SurvivesAt(e, p, o) && KeyLeafAt(c, [], p, q).Some? :: SurvivesAt(e, q, o)
  }

  /** A variant of a set intent survives if it is live, or was there and its intent is orphaned. */
  lemma {:induction false} SetSurvives(c: Ctx, t: TxIntent, q: Path, before: Option<L.LeafEntry>)
    requires IsIntent(t.name) && (before.Some? ==> before.value.owner == t.name && !before.value.onlyIntended)
    ensures var l := V.Set(c, t, q, before);
            l.Some? && l.value.Survives() <==> (l.Some? && !l.value.delete) || (before.Some? && t.orphan)
  {
    V.FoldedExplained(c, t, |t.updates|, q, V.Marked(t.orphan, before));
  }

  lemma {:induction false} LoadedVariant(e: Entry, store: Store, q: Path, o: string)
    requires Loaded(e, store) && IsIntent(o)
    ensures var l := VariantAt(e, q, o);
            && (l.Some? <==> o in store && q in store[o].leaves)
            && (l.Some? ==> l.value.owner == o && !l.value.delete && !l.value.onlyIntended)
  {
    V.OwnVariant(e, q, o);
  }

  lemma {:induction false} LoadedKey(e: Entry, c: Ctx, store: Store, o: string, p: Path, q: Path)
    requires Loaded(e, store) && StoreOk(c, store) && IsIntent(o) && VariantAt(e, p, o).Some? && KeyLeafAt(c, [], p, q).Some?
    ensures VariantAt(e, q, o).Some?
  {
    LoadedVariant(e, store, p, o);
    LoadedVariant(e, store, q, o);
    assert p in store[o].leaves && Southbound.Get(store[o].leaves, q) == KeyLeafAt(c, [], p, q);
  }

  lemma {:induction false} SetKeyed(e: Entry, c: Ctx, store: Store, ts: seq<TxIntent>, i: nat, p: Path, q: Path)
    requires Loaded(e, store) && StoreOk(c, store) && TreeOk(e, c) && Orderly(c, ts) && ApplyIntents(e, c, ts).Some? && i < |ts|
    requires SurvivesAt(ApplyIntents(e, c, ts).value, p, ts[i].name) && KeyLeafAt(c, [], p, q).Some?
    ensures SurvivesAt(ApplyIntents(e, c, ts).value, q, ts[i].name)
  {
    var e', t := ApplyIntents(e, c, ts).value, ts[i];
    V.TransactionVariant(e, c, ts, i, p);
    V.TransactionVariant(e, c, ts, i, q);
    LoadedVariant(e, store, p, t.name);
    LoadedVariant(e, store, q, t.name);
    SetSurvives(c, t, p, VariantAt(e, p, t.name));
    SetSurvives(c, t, q, VariantAt(e, q, t.name));
    if LiveAt(e', p, t.name).Some? {
      ApplyIntentsOwn(e, c, ts, p, i);
      ApplyIntentsOwn(e, c, ts, q, i);
      ContentClosed(c, t.updates, p, q);
    } else {
      LoadedKey(e, c, store, t.name, p, q);
    }
  }

  lemma TransactionKeyed(e: Entry, c: Ctx, store: Store, ts: seq<TxIntent>)
    requires Loaded(e, store) && StoreOk(c, store) && TreeOk(e, c) && Orderly(c, ts) && ApplyIntents(e, c, ts).Some?
    ensures SurvivorsKeyed(ApplyIntents(e, c, ts).value, c)
  {
    var e' := ApplyIntents(e, c, ts).value;
    forall o, p, q | SurvivesAt(e', p, o) && KeyLeafAt(c, [], p, q).Some? ensures SurvivesAt(e', q, o) {
      V.OwnVariant(e', p, o);
      if Named(ts, o) {
        var i: nat :| i < |ts| && ts[i].name == o;
        SetKeyed(e, c, store, ts, i, p, q);
      } else {
        V.TransactionOthers(e, c, ts, p, o);
        V.TransactionOthers(e, c, ts, q, o);
        LoadedKey(e, c, store, o, p, q);
        LoadedVariant(e, store, q, o);
      }
    }
  }

  /** Below a list element, its key leaves are on the way. */
  lemma {:induction false} KeyOnTheWay(c: Ctx, names: seq<string>, x: Path, r: Path, n: string)
    requires |names| == c.level && CtxAt(c, x).Some? && Elements.ElementCtx(CtxAt(c, x).value)
    requires CtxAt(c, x).value.schema.Container? && n in KeyNames(CtxAt(c, x).value)
    ensures KeyLeafAt(c, names, x + r, x + [n]).Some?
    decreases x
  {
    if x == [] {
      assert x + r == r && x + [n] == [n] && IsElement(c, names);
    } else {
      var d := ChildCtx(c, x[0]).value;
      assert (x + r)[1..] == x[1..] + r && (x + [n])[1..] == x[1..] + [n];
      KeyOnTheWay(d, Below(d, names, x[0]), x[1..], r, n);
    }
  }

  lemma {:induction false} KeyKept(root: Entry, c: Ctx, x: Path, owner: string, r: Path, n: string)
    requires R.Fine(root, c, R.Care(true, true, true)) && CtxOk(c) && c.level == 0 && SurvivorsKeyed(root, c)
    requires At(root, x).Some? && CtxAt(c, x).Some? && Elements.ElementCtx(CtxAt(c, x).value) && n in KeyNames(CtxAt(c, x).value)
    requires SurvivesAt(root, x + r, owner)
    ensures var e := At(root, x).value; n in e.children && F.PlainLeaf(e.children[n]) && F.SurvivesIn(e.children[n], owner)
  {
    var e, d := At(root, x).value, CtxAt(c, x).value;
    CtxOkAt(c, x);
    AlphabeticalSorts(SchemaKeys(d.schema));
    KeyOnTheWay(c, [], x, r, n);
    assert SurvivesAt(root, x + [n], owner);
    AtSplit(root, x, n);
    R.AtFine(root, c, R.Care(true, true, true), x);
    KeyIsPlain(e, d, n);
    var les := e.children[n].les;
    assert les[L.IndexOf(les, owner).value].Survives();
  }

  lemma {:induction false} CtxOkAt(c: Ctx, x: Path)
    requires CtxOk(c) && CtxAt(c, x).Some?
    ensures CtxOk(CtxAt(c, x).value)
    decreases x
  {
    if x != [] {
      CtxBelow(c, x[0], ChildCtx(c, x[0]).value);
      CtxOkAt(ChildCtx(c, x[0]).value, x[1..]);
    }
  }

  lemma {:induction false} AtSplit(root: Entry, x: Path, n: string)
    requires At(root, x).Some? && At(root, x + [n]).Some?
    ensures n in At(root, x).value.children && At(root, x + [n]).value == At(root, x).value.children[n]
    decreases x
  {
    if x == [] {
      assert x + [n] == [n] && [n][1..] == [];
    } else {
      assert (x + [n])[1..] == x[1..] + [n];
      AtSplit(root.children[x[0]], x[1..], n);
    }
  }

  lemma {:induction false} KeyIsPlain(e: Entry, d: Ctx, n: string)
    requires R.Fine(e, d, R.Care(true, true, true)) && CtxOk(d) && Elements.ElementCtx(d) && d.schema.Container?
    requires n in SchemaKeys(d.schema) && n in e.children
    ensures F.PlainLeaf(e.children[n])
  {
    var leaf := e.children[n];
    assert ChildCtx(d, n) == Some(Ctx(d.schema.children[n], 0)) && d.schema.children[n].Field?;
    assert leaf.children == map[];
    R.FineLeaf(leaf.les);
    if leaf.les != [] {
      assert L.Highest(leaf.les) in leaf.les;
    }
  }

  const STRICT := R.Care(true, true, true)

  lemma {:induction false} SurvivorSeen(root: Entry, x: Path, e: Entry, owner: string, r: Path)
    requires OwnersUnique(root) && At(root, x) == Some(e) && At(e, r).Some? && F.SurvivesIn(At(e, r).value, owner)
    ensures SurvivesAt(root, x + r, owner)
  {
    AtConcat(root, x, r);
    OwnersUniqueAt(root, x + r);
    var les := At(e, r).value.les;
    var i: nat :| i < |les| && les[i].owner == owner && les[i].Survives();
    S.ByOwnerUnique(les, owner, i);
  }

  lemma {:induction false} ElementGuarded(root: Entry, c: Ctx, x: Path, e: Entry, pl: Southbound.Place, owner: string)
    requires R.Fine(root, c, STRICT) && CtxOk(c) && c.level == 0 && SurvivorsKeyed(root, c) && OwnersUnique(root)
    requires At(root, x) == Some(e) && CtxAt(c, x).Some? && Elements.ElementCtx(CtxAt(c, x).value)
    requires (forall n :: n in pl.keys <==> n in KeyNames(CtxAt(c, x).value)) && F.SurvivesBelow(e, owner)
    ensures F.KeysKept(e, pl.keys, owner)
  {
    var r :| ActiveAt(e, r).Some? && F.SurvivesIn(ActiveAt(e, r).value, owner);
    SurvivorSeen(root, x, e, owner, r);
    forall n | n in pl.keys ensures n in e.children && F.PlainLeaf(e.children[n]) && F.SurvivesIn(e.children[n], owner) {
      KeyKept(root, c, x, owner, r, n);
    }
  }

  lemma {:induction false} GuardedFrom(root: Entry, c: Ctx, x: Path, e: Entry, d: Ctx, pl: Southbound.Place)
    requires R.Fine(root, c, STRICT) && CtxOk(c) && c.level == 0 && SurvivorsKeyed(root, c) && OwnersUnique(root)
    requires At(root, x) == Some(e) && CtxAt(c, x) == Some(d) && X.Typed(e, d) && Elements.KeysOnce(d.schema) && Elements.Fits(d, pl)
    ensures F.KeysGuarded(e, pl)
    decreases e
  {
    Elements.ElementsExactly(e, d, pl);
    if Southbound.IsListElement(e, pl) {
      forall owner | F.SurvivesBelow(e, owner) ensures F.KeysKept(e, pl.keys, owner) {
        ElementGuarded(root, c, x, e, pl, owner);
      }
    }
    forall k | k in e.children ensures F.KeysGuarded(e.children[k], Southbound.Below(e, pl)) {
      var below := ChildCtx(d, k).value;
      AtChild(root, x, k);
      CtxSnoc(c, x, k);
      Elements.FitsBelow(e, d, pl, k);
      Elements.OnceBelow(d, k);
      GuardedFrom(root, c, x + [k], e.children[k], below, Southbound.Below(e, pl));
    }
  }

  /** The schema of a whole tree. */
  ghost predicate RootCtx(c: Ctx) {
    && CtxOk(c) && c.level == 0 && KeyNames(c) == [] && c.schema.Container? && !c.schema.presence
    && Elements.KeysOnce(c.schema)
  }

  lemma {:induction false} AggregableFrom(root: Entry, c: Ctx)
    requires RootCtx(c) && R.Fine(root, c, STRICT) && SurvivorsKeyed(root, c) && NoPresenceConflict(root)
    ensures Aggregation.AggregableTree(root)
  {
    R.FineIsWellFormed(root, c, STRICT);
    GuardedFrom(root, c, [], root, c, Southbound.ROOT);
  }

  // ---------------------------------------------------------------- what a transaction does to the device

  /** The tree a transaction starts from: a choice-free running tree with the store loaded. */
  ghost predicate StartOk(root: Entry, c: Ctx, store: Store) {
    RootCtx(c) && R.Fine(root, c, STRICT) && TreeOk(root, c) && Loaded(root, store) && StoreOk(c, store)
  }

  /** The device after the regular deletes and the updates. */
  ghost function Applied(tree: Entry): map<Path, Value> {
    Southbound.Apply(Southbound.Running(tree), Southbound.Deletes(tree, Southbound.ROOT, false), Southbound.UpdateMap(tree))
  }

  /** A transaction on a choice-free tree leaves the device with exactly what its tree desires, list
      elements whose keys go away apart, if and only if every leaf outside those is settled; and the
      regular deletes with exactly what it desires, if and only if every leaf is. */
  lemma {:induction false} TransactionReconciles(root: Entry, c: Ctx, store: Store, ts: seq<TxIntent>)
    requires StartOk(root, c, store) && Orderly(c, ts) && ApplyIntents(root, c, ts).Some?
    requires NoPresenceConflict(ApplyIntents(root, c, ts).value)
    ensures var tree := ApplyIntents(root, c, ts).value;
            && (Aggregation.Aggregated(tree) == Aggregation.DesiredOutside(tree) <==> Aggregation.SettledOutside(tree))
            && (Applied(tree) == Southbound.DesiredConfig(tree) <==> Southbound.AllSettled(tree))
  {
    var tree := ApplyIntents(root, c, ts).value;
    TransactionFine(root, c, STRICT, ts);
    TransactionKeyed(root, c, store, ts);
    AggregableFrom(tree, c);
    Aggregation.AggregatedReconciliation(tree);
    Southbound.Reconciliation(tree);
  }

  /** Only a set intent's variants are ever marked deleted, and orphaned only if it is orphaned. */
  lemma {:induction false} MarkedIsSet(root: Entry, c: Ctx, store: Store, ts: seq<TxIntent>, p: Path, i: nat)
    requires StartOk(root, c, store) && Orderly(c, ts) && ApplyIntents(root, c, ts).Some?
    requires At(ApplyIntents(root, c, ts).value, p).Some? && i < |At(ApplyIntents(root, c, ts).value, p).value.les|
    ensures var l := At(ApplyIntents(root, c, ts).value, p).value.les[i];
            l.delete || l.onlyIntended ==> Named(ts, l.owner)
  {
    var tree := ApplyIntents(root, c, ts).value;
    TransactionFine(root, c, STRICT, ts);
    R.AtFine(tree, c, STRICT, p);
    var les := At(tree, p).value.les;
    var l := les[i];
    assert R.VariantOk(l, true);
    if IsIntent(l.owner) && !Named(ts, l.owner) {
      S.ByOwnerUnique(les, l.owner, i);
      V.TransactionOthers(root, c, ts, p, l.owner);
      LoadedVariant(root, store, p, l.owner);
    }
  }

  /** Setting a single intent, without orphaning, always leaves the device with exactly what is
      desired. */
  lemma {:induction false} SingleIntentReconciles(root: Entry, c: Ctx, store: Store, t: TxIntent)
    requires StartOk(root, c, store) && Orderly(c, [t]) && ApplyIntents(root, c, [t]).Some? && !t.orphan
    requires NoPresenceConflict(ApplyIntents(root, c, [t]).value)
    ensures var tree := ApplyIntents(root, c, [t]).value;
            Southbound.AllSettled(tree) && Applied(tree) == Southbound.DesiredConfig(tree)
  {
    var tree := ApplyIntents(root, c, [t]).value;
    TransactionFine(root, c, STRICT, [t]);
    TransactionKeyed(root, c, store, [t]);
    AggregableFrom(tree, c);
    forall p | At(tree, p).Some?
      ensures forall i, j | 0 <= i < j < |At(tree, p).value.les| :: !(At(tree, p).value.les[i].delete && At(tree, p).value.les[j].delete)
      ensures forall i | 0 <= i < |At(tree, p).value.les| :: !At(tree, p).value.les[i].onlyIntended
    {
      SingleMark(root, c, store, t, p);
    }
    Southbound.OneDeletePerLeafReconciles(tree);
    Southbound.Reconciliation(tree);
  }

  lemma {:induction false} SingleMark(root: Entry, c: Ctx, store: Store, t: TxIntent, p: Path)
    requires StartOk(root, c, store) && Orderly(c, [t]) && ApplyIntents(root, c, [t]).Some? && !t.orphan
    requires At(ApplyIntents(root, c, [t]).value, p).Some?
    ensures var les := At(ApplyIntents(root, c, [t]).value, p).value.les;
            && (forall i, j | 0 <= i < j < |les| :: !(les[i].delete && les[j].delete))
            && (forall i | 0 <= i < |les| :: !les[i].onlyIntended)
  {
    var tree := ApplyIntents(root, c, [t]).value;
    var les := At(tree, p).value.les;
    V.TransactionVariant(root, c, [t], 0, p);
    OwnersUniqueAt(tree, p);
    LoadedVariant(root, store, p, t.name);
    forall i | 0 <= i < |les| ensures (les[i].delete ==> les[i].owner == t.name) && !les[i].onlyIntended {
      MarkedIsSet(root, c, store, [t], p, i);
      if les[i].owner == t.name {
        S.ByOwnerUnique(les, t.name, i);
        NotOrphaned(c, t, p, VariantAt(root, p, t.name));
      }
    }
  }

  lemma {:induction false} NotOrphaned(c: Ctx, t: TxIntent, q: Path, before: Option<L.LeafEntry>)
    requires !t.orphan && (before.Some? ==> before.value.owner == t.name && !before.value.onlyIntended)
    ensures V.Set(c, t, q, before).Some? ==> !V.Set(c, t, q, before).value.onlyIntended
  {
    FoldedNotOrphaned(c, t, |t.updates|, q, V.Marked(false, before));
  }

  lemma {:induction false} FoldedNotOrphaned(c: Ctx, t: TxIntent, n: nat, q: Path, start: Option<L.LeafEntry>)
    requires n <= |t.updates| && (start.Some? ==> !start.value.onlyIntended)
    ensures V.Folded(c, t, n, q, start).Some? ==> !V.Folded(c, t, n, q, start).value.onlyIntended
    decreases n
  {
    if n > 0 {
      FoldedNotOrphaned(c, t, n - 1, q, start);
    }
  }

  // ---------------------------------------------------------------- the device follows the store

  ghost predicate HoldsIt(store: Store, o: string, q: Path) {
    o in store && q in store[o].leaves
  }

  /** Of all intents in the store that hold q, o ranks first. */
  ghost predicate RanksFirst(store: Store, o: string, q: Path) {
    HoldsIt(store, o, q) && forall x | HoldsIt(store, x, q) && x != o :: store[o].priority < store[x].priority
  }

  /** What the tree holds live is what the store holds afterwards. */
  lemma {:induction false} LiveIsStored(root: Entry, c: Ctx, store: Store, ts: seq<TxIntent>, o: string, q: Path)
    requires StartOk(root, c, store) && Orderly(c, ts) && ApplyIntents(root, c, ts).Some? && IsIntent(o)
    ensures var tree := ApplyIntents(root, c, ts).value; var after := StoreAfter(store, tree, ts);
            && (LiveAt(tree, q, o).Some? <==> HoldsIt(after, o, q))
            && (HoldsIt(after, o, q) ==> LiveAt(tree, q, o) == Some(after[o].leaves[q]))
  {
    var tree := ApplyIntents(root, c, ts).value;
    LeavesAt(tree, o, q);
    if Named(ts, o) {
      var i: nat :| i < |ts| && ts[i].name == o;
      StoreAfterOwn(store, tree, ts, i);
    } else {
      StoreAfterOthers(store, tree, ts, o);
      V.TransactionOthers(root, c, ts, q, o);
      LoadedVariant(root, store, q, o);
    }
  }

  /** Away from key leaves, a live variant ranks as its intent does in the store. */
  lemma {:induction false} RankIsStored(root: Entry, c: Ctx, store: Store, ts: seq<TxIntent>, o: string, q: Path)
    requires StartOk(root, c, store) && Orderly(c, ts) && ApplyIntents(root, c, ts).Some? && IsIntent(o)
    requires KeyLeafAt(c, [], q, q).None? && LiveAt(ApplyIntents(root, c, ts).value, q, o).Some?
    ensures var tree := ApplyIntents(root, c, ts).value; var after := StoreAfter(store, tree, ts);
            o in after && VariantAt(tree, q, o).value.priority == after[o].priority
  {
    var tree := ApplyIntents(root, c, ts).value;
    LiveIsStored(root, c, store, ts, o, q);
    if Named(ts, o) {
      var i: nat :| i < |ts| && ts[i].name == o;
      StoreAfterOwn(store, tree, ts, i);
      ApplyIntentsOwn(root, c, ts, q, i);
      var j := ContentFrom(c, ts[i].updates, q);
      if KeyLeafAt(c, [], ts[i].updates[j].0, q).Some? {
        KeyLeafSelf(c, [], ts[i].updates[j].0, q);
      }
      V.TransactionRanks(root, c, ts, i, q);
    } else {
      StoreAfterOthers(store, tree, ts, o);
      V.TransactionOthers(root, c, ts, q, o);
    }
  }

  lemma {:induction false} FirstInStoreIsBest(root: Entry, c: Ctx, store: Store, ts: seq<TxIntent>, o: string, q: Path, i: nat)
    requires StartOk(root, c, store) && Orderly(c, ts) && ApplyIntents(root, c, ts).Some? && IsIntent(o) && KeyLeafAt(c, [], q, q).None?
    requires var tree := ApplyIntents(root, c, ts).value;
             && RanksFirst(StoreAfter(store, tree, ts), o, q) && At(tree, q).Some?
             && i < |At(tree, q).value.les| && At(tree, q).value.les[i].owner == o && !At(tree, q).value.les[i].delete
             && L.WellFormed(At(tree, q).value.les)
    ensures P.IsBestLive(At(ApplyIntents(root, c, ts).value, q).value.les, i)
  {
    var tree := ApplyIntents(root, c, ts).value;
    var les, after := At(tree, q).value.les, StoreAfter(store, tree, ts);
    S.ByOwnerUnique(les, o, i);
    RankIsStored(root, c, store, ts, o, q);
    forall j | 0 <= j < |les| && !les[j].delete && j != i ensures les[i].priority < les[j].priority {
      assert L.PrioOk(les[i]) && L.PrioOk(les[j]) && les[j].owner != o;
      if IsIntent(les[j].owner) {
        S.ByOwnerUnique(les, les[j].owner, j);
        LiveIsStored(root, c, store, ts, les[j].owner, q);
        RankIsStored(root, c, store, ts, les[j].owner, q);
      }
    }
  }

  lemma {:induction false} LeafOk(root: Entry, c: Ctx, store: Store, ts: seq<TxIntent>, q: Path)
    requires StartOk(root, c, store) && Orderly(c, ts) && ApplyIntents(root, c, ts).Some? && At(ApplyIntents(root, c, ts).value, q).Some?
    ensures var les := At(ApplyIntents(root, c, ts).value, q).value.les;
            L.WellFormed(les) && forall i | 0 <= i < |les| :: !les[i].explicitDelete
  {
    TransactionFine(root, c, STRICT, ts);
    R.AtFine(ApplyIntents(root, c, ts).value, c, STRICT, q);
    R.FineLeaf(At(ApplyIntents(root, c, ts).value, q).value.les);
  }

  /** The value desired at q is that of the intent that ranks first in the store. */
  lemma {:induction false} DesiredIsFirst(root: Entry, c: Ctx, store: Store, ts: seq<TxIntent>, o: string, q: Path)
    requires StartOk(root, c, store) && Orderly(c, ts) && ApplyIntents(root, c, ts).Some? && IsIntent(o)
    requires RanksFirst(StoreAfter(store, ApplyIntents(root, c, ts).value, ts), o, q)
    requires At(ApplyIntents(root, c, ts).value, q).Some? ==> At(ApplyIntents(root, c, ts).value, q).value.nonRevertive == {}
    ensures var tree := ApplyIntents(root, c, ts).value;
            Southbound.DesiredAt(tree, q) == Some(StoreAfter(store, tree, ts)[o].leaves[q])
  {
    var tree := ApplyIntents(root, c, ts).value;
    LiveIsStored(root, c, store, ts, o, q);
    LeafOk(root, c, store, ts, q);
    var les := At(tree, q).value.les;
    var i := L.IndexOf(les, o).value;
    if KeyLeafAt(c, [], q, q).None? {
      FirstInStoreIsBest(root, c, store, ts, o, q, i);
      P.WinnerIsBest(les, i);
    } else {
      P.WinnerOwner(les);
      var w := P.Winner(les).value;
      KeyValueShared(root, c, ts, q, o, w);
    }
    assert L.Highest(les) in les;
  }

  /** All that is held in a key leaf is the key's value. */
  lemma {:induction false} KeyValueShared(root: Entry, c: Ctx, ts: seq<TxIntent>, q: Path, o: string, l: L.LeafEntry)
    requires TreeOk(root, c) && Orderly(c, ts) && ApplyIntents(root, c, ts).Some? && KeyLeafAt(c, [], q, q).Some?
    requires At(ApplyIntents(root, c, ts).value, q).Some? && l in At(ApplyIntents(root, c, ts).value, q).value.les && l.owner != DEFAULT
    requires o != DEFAULT && VariantAt(ApplyIntents(root, c, ts).value, q, o).Some?
    ensures l.value == VariantAt(ApplyIntents(root, c, ts).value, q, o).value.value
  {
    var tree := ApplyIntents(root, c, ts).value;
    ApplyIntentsOk(root, c, ts);
    OwnersUniqueAt(tree, q);
    var les := At(tree, q).value.les;
    var j: nat :| j < |les| && les[j] == l;
    S.ByOwnerUnique(les, l.owner, j);
    assert Matching(tree, c, [], l.owner) && Matching(tree, c, [], o);
  }

  /** Without an intent that holds q the device keeps its value, unless the transaction took the last
      one away. */
  lemma {:induction false} DesiredWithoutHolder(root: Entry, c: Ctx, store: Store, ts: seq<TxIntent>, q: Path)
    requires StartOk(root, c, store) && Orderly(c, ts) && ApplyIntents(root, c, ts).Some? && forall i | 0 <= i < |ts| :: !ts[i].orphan
    requires forall o :: !HoldsIt(StoreAfter(store, ApplyIntents(root, c, ts).value, ts), o, q)
    ensures Southbound.DesiredAt(ApplyIntents(root, c, ts).value, q) ==
            if exists i | 0 <= i < |ts| :: HoldsIt(store, ts[i].name, q) then None else Southbound.RunningAt(root, q)
  {
    var tree := ApplyIntents(root, c, ts).value;
    V.TransactionOthers(root, c, ts, q, RUNNING);
    if i :| 0 <= i < |ts| && HoldsIt(store, ts[i].name, q) {
      HeldStays(root, c, store, ts, i, q);
    }
    if At(tree, q).Some? {
      LeafOk(root, c, store, ts, q);
      var les := At(tree, q).value.les;
      forall j | 0 <= j < |les| && IsIntent(les[j].owner)
        ensures les[j].delete && !les[j].onlyIntended && exists i | 0 <= i < |ts| :: HoldsIt(store, ts[i].name, q)
      {
        DeletedWasHeld(root, c, store, ts, q, j);
      }
      DesiredUnheld(les, At(tree, q).value.nonRevertive);
    }
  }

  /** Without a live or orphaned intent the leaf is to hold what the device holds, or nothing. */
  lemma {:induction false} DesiredUnheld(les: seq<L.LeafEntry>, nonRevertive: set<string>)
    requires L.WellFormed(les) && forall i | 0 <= i < |les| :: !les[i].explicitDelete
    requires forall j | 0 <= j < |les| && IsIntent(les[j].owner) :: les[j].delete && !les[j].onlyIntended
    ensures P.Desired(les, nonRevertive) == if L.HasIntent(les) then None else L.RunningValue(les)
  {
    P.WinnerOwner(les);
    if les != [] {
      assert L.Highest(les) in les;
    }
  }

  lemma {:induction false} HeldStays(root: Entry, c: Ctx, store: Store, ts: seq<TxIntent>, i: nat, q: Path)
    requires StartOk(root, c, store) && Orderly(c, ts) && ApplyIntents(root, c, ts).Some? && i < |ts| && HoldsIt(store, ts[i].name, q)
    ensures VariantAt(ApplyIntents(root, c, ts).value, q, ts[i].name).Some?
    ensures At(ApplyIntents(root, c, ts).value, q).Some? && L.HasIntent(At(ApplyIntents(root, c, ts).value, q).value.les)
  {
    var tree, o := ApplyIntents(root, c, ts).value, ts[i].name;
    LoadedVariant(root, store, q, o);
    V.TransactionVariant(root, c, ts, i, q);
    V.FoldedExplained(c, ts[i], |ts[i].updates|, q, V.Marked(ts[i].orphan, VariantAt(root, q, o)));
    var les := At(tree, q).value.les;
    assert les[L.IndexOf(les, o).value].owner == o;
  }

  lemma {:induction false} DeletedWasHeld(root: Entry, c: Ctx, store: Store, ts: seq<TxIntent>, q: Path, j: nat)
    requires StartOk(root, c, store) && Orderly(c, ts) && ApplyIntents(root, c, ts).Some? && forall i | 0 <= i < |ts| :: !ts[i].orphan
    requires forall o :: !HoldsIt(StoreAfter(store, ApplyIntents(root, c, ts).value, ts), o, q)
    requires At(ApplyIntents(root, c, ts).value, q).Some? && j < |At(ApplyIntents(root, c, ts).value, q).value.les|
    requires IsIntent(At(ApplyIntents(root, c, ts).value, q).value.les[j].owner)
    ensures var l := At(ApplyIntents(root, c, ts).value, q).value.les[j];
            l.delete && !l.onlyIntended && exists i | 0 <= i < |ts| :: HoldsIt(store, ts[i].name, q)
  {
    var tree := ApplyIntents(root, c, ts).value;
    var les := At(tree, q).value.les;
    var l := les[j];
    V.TransactionOthers(root, c, ts, q, RUNNING);
    OwnersUniqueAt(tree, q);
    S.ByOwnerUnique(les, l.owner, j);
    LiveIsStored(root, c, store, ts, l.owner, q);
    assert !HoldsIt(StoreAfter(store, tree, ts), l.owner, q);
    MarkedIsSet(root, c, store, ts, q, j);
    var i: nat :| i < |ts| && ts[i].name == l.owner;
    LoadedVariant(root, store, q, l.owner);
    V.TransactionVariant(root, c, ts, i, q);
    NotOrphaned(c, ts[i], q, VariantAt(root, q, l.owner));
    V.FoldedExplained(c, ts[i], |ts[i].updates|, q, V.Marked(ts[i].orphan, VariantAt(root, q, l.owner)));
  }

  /** The device follows the store: after a settled transaction without orphans it holds at every path
      the value of the intent that then ranks first in the store; where no intent holds the path any
      more, nothing if the transaction took it away, and else what it held before. */
  lemma {:induction false} DeviceFollowsStore(root: Entry, c: Ctx, store: Store, ts: seq<TxIntent>, q: Path)
    requires StartOk(root, c, store) && Orderly(c, ts) && ApplyIntents(root, c, ts).Some? && forall i | 0 <= i < |ts| :: !ts[i].orphan
    requires NoPresenceConflict(ApplyIntents(root, c, ts).value) && Southbound.AllSettled(ApplyIntents(root, c, ts).value)
    requires At(ApplyIntents(root, c, ts).value, q).Some? ==> At(ApplyIntents(root, c, ts).value, q).value.nonRevertive == {}
    ensures var tree := ApplyIntents(root, c, ts).value; var after := StoreAfter(store, tree, ts);
            && (forall o | IsIntent(o) && RanksFirst(after, o, q) :: Southbound.Get(Applied(tree), q) == Some(after[o].leaves[q]))
            && ((forall o :: !HoldsIt(after, o, q)) ==>
                  Southbound.Get(Applied(tree), q) ==
                  if exists i | 0 <= i < |ts| :: HoldsIt(store, ts[i].name, q) then None else Southbound.RunningAt(root, q))
  {
    var tree := ApplyIntents(root, c, ts).value;
    TransactionReconciles(root, c, store, ts);
    Southbound.RunningMapAt(tree, q);
    forall o | IsIntent(o) && RanksFirst(StoreAfter(store, tree, ts), o, q)
      ensures Southbound.Get(Applied(tree), q) == Some(StoreAfter(store, tree, ts)[o].leaves[q])
    {
      DesiredIsFirst(root, c, store, ts, o, q);
    }
    if forall o :: !HoldsIt(StoreAfter(store, tree, ts), o, q) {
      DesiredWithoutHolder(root, c, store, ts, q);
    }
  }

  // ---------------------------------------------------------------- a revert after a sync

  lemma {:induction false} SyncTreeCalm(e: Entry, c: Ctx)
    requires R.Fine(e, c, STRICT) && Loaded(e, map[])
    ensures Y.Calm(e)
  {
    R.FineIsWellFormed(e, c, STRICT);
    forall q, o | o != DEFAULT && VariantAt(e, q, o).Some?
      ensures !VariantAt(e, q, o).value.delete && !VariantAt(e, q, o).value.onlyIntended && !VariantAt(e, q, o).value.explicitDelete
    {
      R.AtFine(e, c, STRICT, q);
      V.OwnVariant(e, q, o);
      var les := At(e, q).value.les;
      assert o == RUNNING && R.VariantOk(les[L.IndexOf(les, o).value], true);
    }
  }

  /** After a sync pass the tree of running is as a revert needs it: well formed, running at its rank
      and without flags, and still without intents. */
  lemma {:induction false} SyncedBase(e: Entry, c: Ctx, deletes: seq<Y.Lookup>, config: Option<E.Element>, zs: seq<Y.Lookup>)
    requires RootCtx(c) && R.Fine(e, c, STRICT) && Loaded(e, map[]) && Y.Overlaid(e, c, deletes, config).Some?
    requires Y.ListsZeros(Y.Overlaid(e, c, deletes, config).value, zs)
    ensures var after := Y.Synced(Y.Overlaid(e, c, deletes, config).value, zs);
            R.Fine(after, c, STRICT) && LeavesOk(after) && Loaded(after, map[])
  {
    var m := Y.Overlaid(e, c, deletes, config).value;
    var after := Y.Synced(m, zs);
    R.SyncedFine(e, c, STRICT, deletes, config, zs);
    R.FineIsWellFormed(after, c, STRICT);
    SyncTreeCalm(e, c);
    Y.OverlaidTame(e, c, deletes, config);
    Y.ZerosNotLive(m, zs);
    forall q, o | IsIntent(o) ensures VariantAt(after, q, o).None? {
      Y.CleanedUpKeeps(Y.Swept(m, false), zs, q, o);
      Y.ResetAllObserved(Y.CleanedUp(Y.Swept(m, false), zs), q, o);
      Y.SweptKeeps(m, false, q, o);
      NoIntentImported(e, c, deletes, config, q, o);
    }
  }

  lemma {:induction false} NoIntentImported(e: Entry, c: Ctx, deletes: seq<Y.Lookup>, config: Option<E.Element>, q: Path, o: string)
    requires c.level == 0 && OwnersUnique(e) && Loaded(e, map[]) && IsIntent(o) && Y.Overlaid(e, c, deletes, config).Some?
    ensures VariantAt(Y.Overlaid(e, c, deletes, config).value, q, o).None?
  {
    Y.MarkedUnderObserved(e, deletes, q, o);
    if config.Some? {
      E.ImportedObserved(Y.MarkedUnder(e, deletes), c, config.value, Y.RUNNING_ENTRY, q, o);
    }
  }

  lemma {:induction false} LoadedUnmarkedAt(root: Entry, c: Ctx, store: Store, p: Path)
    requires StartOk(root, c, store) && At(root, p).Some?
    ensures Elements.UnmarkedLeaf(At(root, p).value.les) && L.WellFormed(At(root, p).value.les)
    ensures forall i | 0 <= i < |At(root, p).value.les| :: !At(root, p).value.les[i].onlyIntended && !At(root, p).value.les[i].explicitDelete
  {
    assert Orderly(c, []) && ApplyIntents(root, c, []) == Some(root);
    LeafOk(root, c, store, [], p);
    var les := At(root, p).value.les;
    R.AtFine(root, c, STRICT, p);
    forall i | 0 <= i < |les| ensures !les[i].delete && !les[i].onlyIntended {
      assert R.VariantOk(les[i], true);
      MarkedIsSet(root, c, store, [], p, i);
    }
  }

  lemma {:induction false} KeysThereFrom(root: Entry, c: Ctx, x: Path, e: Entry, d: Ctx, pl: Southbound.Place)
    requires (forall p :: !Elements.Keyless(root, c, p)) && At(root, x) == Some(e) && CtxAt(c, x) == Some(d)
    requires X.Typed(e, d) && Elements.KeysOnce(d.schema) && Elements.Fits(d, pl)
    ensures Convergence.KeyLeafThere(e, pl)
    decreases e
  {
    Elements.ElementsExactly(e, d, pl);
    assert !Elements.Keyless(root, c, x);
    forall k | k in e.children ensures Convergence.KeyLeafThere(e.children[k], Southbound.Below(e, pl)) {
      AtChild(root, x, k);
      CtxSnoc(c, x, k);
      Elements.FitsBelow(e, d, pl, k);
      Elements.OnceBelow(d, k);
      KeysThereFrom(root, c, x + [k], e.children[k], ChildCtx(d, k).value, Southbound.Below(e, pl));
    }
  }

  /** The tree a revert looks at, running after a sync with the store loaded, is settled: what it sends
      leaves the device with exactly what is desired, and the next look is quiet. */
  lemma {:induction false} RevertReconciles(root: Entry, c: Ctx, store: Store)
    requires StartOk(root, c, store) && NoPresenceConflict(root) && forall p :: !Elements.Keyless(root, c, p)
    ensures Applied(root) == Southbound.DesiredConfig(root) && Aggregation.Aggregated(root) == Southbound.DesiredConfig(root)
    ensures Southbound.Deletes(root, Southbound.ROOT, true) == {}
    ensures var next := Convergence.Next(root, [], Aggregation.Aggregated(root));
            Southbound.Deletes(next, Southbound.ROOT, true) == {} && Southbound.Updates(next) == {}
  {
    assert Orderly(c, []) && ApplyIntents(root, c, []) == Some(root);
    TransactionKeyed(root, c, store, []);
    AggregableFrom(root, c);
    forall p | At(root, p).Some?
      ensures P.Settled(At(root, p).value.les) && !Convergence.ExplicitWaits(At(root, p).value.les) && !L.ShouldDelete(At(root, p).value.les)
    {
      LoadedUnmarkedAt(root, c, store, p);
      P.OneDeleteSettles(At(root, p).value.les);
      Elements.UnmarkedStays(At(root, p).value.les);
    }
    Southbound.SettledUp(root);
    Southbound.Reconciliation(root);
    R.FineIsWellFormed(root, c, STRICT);
    KeysThereFrom(root, c, [], root, c, Southbound.ROOT);
    Convergence.NothingAnywhere(root);
    Convergence.NothingDeleted(root, Southbound.ROOT, true);
    Convergence.NothingDeleted(root, Southbound.ROOT, false);
    Aggregation.AggregatedConverges(root, true);
  }
}
