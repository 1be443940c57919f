/** Setting and rolling back intents (pkg/datastore/transaction_rpc.go, lowlevelTransactionSet;
    pkg/datastore/types/transaction.go; pkg/tree/processors/processor_mark_owner_delete.go), as
    changes of the intended store. An intent's persisted content is its map of live leaves. */
module Transactions {
  import opened Base
  import opened Tree
  import opened Paths
  import opened Growth
  import opened Insertion
  import L = Leaves
  import S = LeafStore
  import Southbound

  datatype Intent = Intent(priority: int, leaves: map<Path, Value>, nonRevertive: bool, orphan: bool)

  type Store = map<string, Intent>

  /** One intent of a transaction. */
  datatype TxIntent = TxIntent(
    name: string, priority: int, delete: bool, orphan: bool, nonRevertive: bool, previouslyApplied: bool,
    updates: seq<(Path, Value)>)

  // ---------------------------------------------------------------- marking an owner deleted

  function MarkAll(e: Entry, owner: string, orphan: bool): Entry {
    e.(les := S.Marked(e.les, owner, orphan),
       children := map k | k in e.children :: MarkAll(e.children[k], owner, orphan))
  }

  lemma {:induction false} MarkAllUnique(e: Entry, owner: string, orphan: bool)
    requires OwnersUnique(e)
    ensures OwnersUnique(MarkAll(e, owner, orphan))
  {
    S.MarkedPerOwner(e.les, owner, orphan, owner);
    forall k | k in e.children ensures OwnersUnique(MarkAll(e.children[k], owner, orphan)) {
      MarkAllUnique(e.children[k], owner, orphan);
    }
  }

  /** The whole-tree walk marks every variant of the owner and touches no other. */
  lemma {:induction false} MarkAllObserved(e: Entry, owner: string, orphan: bool, q: Path, o: string)
    requires OwnersUnique(e)
    ensures VariantAt(MarkAll(e, owner, orphan), q, o) ==
            if o == owner && VariantAt(e, q, o).Some?
            then Some(VariantAt(e, q, o).value.MarkDelete(orphan)) else VariantAt(e, q, o)
    decreases q
  {
    if q == [] {
      S.MarkedPerOwner(e.les, owner, orphan, o);
    } else if q[0] in e.children {
      MarkAllObserved(e.children[q[0]], owner, orphan, q[1..], o);
    }
  }

  // ---------------------------------------------------------------- one intent

  function Variant(t: TxIntent, v: Value): L.LeafEntry {
    L.LeafEntry(t.name, t.priority, v, !(t.nonRevertive && t.previouslyApplied), false, false, false, false)
  }

  function ToUpdates(t: TxIntent): seq<Update> {
    seq(|t.updates|, i requires 0 <= i < |t.updates| => Update(t.updates[i].0, Variant(t, t.updates[i].1)))
  }

  /** The tree after one intent of the transaction: old content marked, new content added. */
  function ApplyIntent(e: Entry, c: Ctx, t: TxIntent): Option<Entry> {
    var marked := MarkAll(e, t.name, t.orphan);
    if t.delete then Some(marked) else AddAll(marked, c, ToUpdates(t))
  }

  function ApplyIntents(e: Entry, c: Ctx, ts: seq<TxIntent>): Option<Entry> {
    if ts == [] then Some(e)
    else match ApplyIntents(e, c, ts[..|ts| - 1])
      case None => None
      case Some(m) => ApplyIntent(m, c, ts[|ts| - 1])
  }

  predicate Acceptable(c: Ctx, t: TxIntent) {
    && t.name != DEFAULT
    && forall i | 0 <= i < |t.updates| :: KeyConsistent(c, [], t.updates[i].0, t.updates[i].1)
  }

  /** What an intent's updates, with their key leaves, amount to at a path. */
  function ContentOf(c: Ctx, us: seq<(Path, Value)>, q: Path): Option<Value> {
    if us == [] then None
    else
      var u := us[|us| - 1];
      Overlaid(c, [], u.0, u.1, q, ContentOf(c, us[..|us| - 1], q))
  }

  ghost predicate TreeOk(e: Entry, c: Ctx) {
    OwnersUnique(e) && forall o | o != DEFAULT :: Matching(e, c, [], o)
  }

  lemma MarkAllMatching(e: Entry, c: Ctx, owner: string, orphan: bool, o: string)
    requires OwnersUnique(e) && Matching(e, c, [], o)
    ensures Matching(MarkAll(e, owner, orphan), c, [], o)
  {
    var m := MarkAll(e, owner, orphan);
    forall q | VariantAt(m, q, o).Some? && KeyLeafAt(c, [], q, q).Some?
      ensures VariantAt(m, q, o).value.value == KeyLeafAt(c, [], q, q).value
    {
      MarkAllObserved(e, owner, orphan, q, o);
    }
  }

  lemma MarkAllOk(e: Entry, c: Ctx, owner: string, orphan: bool)
    requires TreeOk(e, c)
    ensures TreeOk(MarkAll(e, owner, orphan), c)
    ensures forall q :: LiveAt(MarkAll(e, owner, orphan), q, owner).None?
  {
    MarkAllUnique(e, owner, orphan);
    forall o | o != DEFAULT ensures Matching(MarkAll(e, owner, orphan), c, [], o) {
      MarkAllMatching(e, c, owner, orphan, o);
    }
    forall q ensures LiveAt(MarkAll(e, owner, orphan), q, owner).None? {
      MarkAllObserved(e, owner, orphan, q, owner);
    }
  }

  lemma AddUpdateOk(e: Entry, c: Ctx, u: Update)
    requires TreeOk(e, c) && Insertable(c, u) && AddUpdate(e, c, [], u.path, u.le).Some?
    ensures TreeOk(AddUpdate(e, c, [], u.path, u.le).value, c)
  {
    var e' := AddUpdate(e, c, [], u.path, u.le).value;
    AddUpdateOthers(e, c, [], u.path, u.le, [], u.le.owner);
    forall o | o != DEFAULT ensures Matching(e', c, [], o) {
      if o == u.le.owner {
        AddUpdateMatching(e, c, [], u.path, u.le);
      } else {
        OthersMatching(e, c, u.path, u.le, o);
      }
    }
  }

  lemma {:induction false} AddAllStep(e: Entry, c: Ctx, t: TxIntent, n: nat)
    requires 0 < n <= |t.updates| && AddAll(e, c, ToUpdates(t)[..n]).Some?
    ensures AddAll(e, c, ToUpdates(t)[..n - 1]).Some?
    ensures AddAll(e, c, ToUpdates(t)[..n]) ==
            AddUpdate(AddAll(e, c, ToUpdates(t)[..n - 1]).value, c, [], t.updates[n - 1].0, Variant(t, t.updates[n - 1].1))
  {
    assert ToUpdates(t)[..n][..n - 1] == ToUpdates(t)[..n - 1];
  }

  lemma {:induction false} ContentStep(c: Ctx, us: seq<(Path, Value)>, n: nat, q: Path)
    requires 0 < n <= |us|
    ensures ContentOf(c, us[..n], q) == Overlaid(c, [], us[n - 1].0, us[n - 1].1, q, ContentOf(c, us[..n - 1], q))
  {
    assert us[..n][..n - 1] == us[..n - 1];
  }

  /** Adding an intent's updates to a tree where it holds nothing gives its content. */
  lemma {:induction false} AddAllObserved(e: Entry, c: Ctx, t: TxIntent, n: nat, q: Path, o: string)
    requires TreeOk(e, c) && Acceptable(c, t) && n <= |t.updates| && o != DEFAULT
    requires AddAll(e, c, ToUpdates(t)[..n]).Some?
    requires forall r :: LiveAt(e, r, t.name).None?
    ensures TreeOk(AddAll(e, c, ToUpdates(t)[..n]).value, c)
    ensures LiveAt(AddAll(e, c, ToUpdates(t)[..n]).value, q, t.name) == ContentOf(c, t.updates[..n], q)
    ensures o != t.name ==> VariantAt(AddAll(e, c, ToUpdates(t)[..n]).value, q, o) == VariantAt(e, q, o)
    decreases n
  {
    if n > 0 {
      AddAllStep(e, c, t, n);
      AddAllObserved(e, c, t, n - 1, q, o);
      OneMoreObserved(AddAll(e, c, ToUpdates(t)[..n - 1]).value, c, Update(t.updates[n - 1].0, Variant(t, t.updates[n - 1].1)), q, o);
      ContentStep(c, t.updates, n, q);
    }
  }

  lemma {:induction false} OneMoreObserved(m: Entry, c: Ctx, u: Update, q: Path, o: string)
    requires TreeOk(m, c) && Insertable(c, u) && o != DEFAULT && AddUpdate(m, c, [], u.path, u.le).Some?
    ensures var m' := AddUpdate(m, c, [], u.path, u.le).value;
            && TreeOk(m', c)
            && LiveAt(m', q, u.le.owner) == Overlaid(c, [], u.path, u.le.value, q, LiveAt(m, q, u.le.owner))
            && (o != u.le.owner ==> VariantAt(m', q, o) == VariantAt(m, q, o))
  {
    AddUpdateOk(m, c, u);
    AddUpdateObserved(m, c, [], u.path, u.le, q);
    AddUpdateOthers(m, c, [], u.path, u.le, q, o);
  }

  /** After an intent is applied its live content is exactly the transaction's; every other
      owner holds what it held. */
  lemma ApplyIntentObserved(e: Entry, c: Ctx, t: TxIntent, q: Path, o: string)
    requires TreeOk(e, c) && Acceptable(c, t) && ApplyIntent(e, c, t).Some? && o != DEFAULT
    ensures TreeOk(ApplyIntent(e, c, t).value, c)
    ensures LiveAt(ApplyIntent(e, c, t).value, q, t.name) == if t.delete then None else ContentOf(c, t.updates, q)
    ensures o != t.name ==> VariantAt(ApplyIntent(e, c, t).value, q, o) == VariantAt(e, q, o)
  {
    var m := MarkAll(e, t.name, t.orphan);
    MarkAllOk(e, c, t.name, t.orphan);
    MarkAllObserved(e, t.name, t.orphan, q, o);
    if !t.delete {
      assert ToUpdates(t)[..|t.updates|] == ToUpdates(t) && t.updates[..|t.updates|] == t.updates;
      AddAllObserved(m, c, t, |t.updates|, q, o);
    }
  }

  // ---------------------------------------------------------------- which updates keep the tree in order

  /** Every tree on the way is in order. */
  ghost predicate OkThroughout(m: Entry, c: Ctx, t: TxIntent) {
    forall n: nat | n <= |t.updates| && AddAll(m, c, ToUpdates(t)[..n]).Some? :: TreeOk(AddAll(m, c, ToUpdates(t)[..n]).value, c)
  }

  /** An update that puts another value into a key leaf puts the tree out of order. */
  lemma {:induction false} OkNeedsConsistency(m: Entry, c: Ctx, t: TxIntent, i: nat)
    requires t.name != DEFAULT && i < |t.updates| && AddAll(m, c, ToUpdates(t)[..i + 1]).Some?
    requires AddAll(m, c, ToUpdates(t)[..i]).Some? && TreeOk(AddAll(m, c, ToUpdates(t)[..i]).value, c)
    requires TreeOk(AddAll(m, c, ToUpdates(t)[..i + 1]).value, c)
    ensures KeyConsistent(c, [], t.updates[i].0, t.updates[i].1)
  {
    AddAllStep(m, c, t, i + 1);
    var p := t.updates[i].0;
    AddUpdateObserved(AddAll(m, c, ToUpdates(t)[..i]).value, c, [], p, Variant(t, t.updates[i].1), p);
    assert Matching(AddAll(m, c, ToUpdates(t)[..i + 1]).value, c, [], t.name);
  }

  /** The tree stays in order throughout if and only if no update puts another value into a key leaf. */
  lemma {:induction false} AcceptedExactly(e: Entry, c: Ctx, t: TxIntent)
    requires TreeOk(e, c) && t.name != DEFAULT && !t.delete && ApplyIntent(e, c, t).Some?
    ensures OkThroughout(MarkAll(e, t.name, t.orphan), c, t) <==> Acceptable(c, t)
  {
    var m, us := MarkAll(e, t.name, t.orphan), ToUpdates(t);
    MarkAllOk(e, c, t.name, t.orphan);
    if Acceptable(c, t) {
      forall n: nat | n <= |t.updates| && AddAll(m, c, us[..n]).Some? ensures TreeOk(AddAll(m, c, us[..n]).value, c) {
        AddAllObserved(m, c, t, n, [], RUNNING);
      }
    }
    if OkThroughout(m, c, t) {
      forall i | 0 <= i < |t.updates| ensures KeyConsistent(c, [], t.updates[i].0, t.updates[i].1) {
        AddAllPrefix(m, c, us, i);
        AddAllPrefix(m, c, us, i + 1);
        OkNeedsConsistency(m, c, t, i);
      }
    }
  }

  predicate DistinctNames(ts: seq<TxIntent>) {
    forall i, j | 0 <= i < j < |ts| :: ts[i].name != ts[j].name
  }

  predicate Runnable(c: Ctx, ts: seq<TxIntent>) {
    (forall i | 0 <= i < |ts| :: Acceptable(c, ts[i])) && DistinctNames(ts)
  }

  lemma {:induction false} ApplyIntentsOk(e: Entry, c: Ctx, ts: seq<TxIntent>)
    requires TreeOk(e, c) && Runnable(c, ts) && ApplyIntents(e, c, ts).Some?
    ensures TreeOk(ApplyIntents(e, c, ts).value, c)
    decreases |ts|
  {
    if ts != [] {
      ApplyIntentsOk(e, c, ts[..|ts| - 1]);
      ApplyIntentObserved(ApplyIntents(e, c, ts[..|ts| - 1]).value, c, ts[|ts| - 1], [], RUNNING);
    }
  }

  /** Owners outside the transaction keep what they hold. */
  lemma {:induction false} ApplyIntentsOthers(e: Entry, c: Ctx, ts: seq<TxIntent>, q: Path, o: string)
    requires TreeOk(e, c) && Runnable(c, ts) && ApplyIntents(e, c, ts).Some?
    requires o != DEFAULT && forall i | 0 <= i < |ts| :: ts[i].name != o
    ensures VariantAt(ApplyIntents(e, c, ts).value, q, o) == VariantAt(e, q, o)
    decreases |ts|
  {
    if ts != [] {
      var front, t := ts[..|ts| - 1], ts[|ts| - 1];
      ApplyIntentsOk(e, c, front);
      ApplyIntentsOthers(e, c, front, q, o);
      ApplyIntentObserved(ApplyIntents(e, c, front).value, c, t, q, o);
    }
  }

  /** Every intent of the transaction ends with its own content, whatever the others do. */
  lemma {:induction false} ApplyIntentsOwn(e: Entry, c: Ctx, ts: seq<TxIntent>, q: Path, i: nat)
    requires TreeOk(e, c) && Runnable(c, ts) && ApplyIntents(e, c, ts).Some? && i < |ts|
    ensures LiveAt(ApplyIntents(e, c, ts).value, q, ts[i].name) ==
            if ts[i].delete then None else ContentOf(c, ts[i].updates, q)
    decreases |ts|
  {
    var front, t := ts[..|ts| - 1], ts[|ts| - 1];
    ApplyIntentsOk(e, c, front);
    var m := ApplyIntents(e, c, front).value;
    if i == |ts| - 1 {
      ApplyIntentObserved(m, c, t, q, t.name);
    } else {
      ApplyIntentsOwn(e, c, front, q, i);
      assert ts[i].name != t.name;
      ApplyIntentObserved(m, c, t, q, ts[i].name);
    }
  }

  // ---------------------------------------------------------------- the intended store

  function Leaves(e: Entry, o: string): map<Path, Value> {
    map p | p in Southbound.NodePaths(e) && LiveAt(e, p, o).Some? :: LiveAt(e, p, o).value
  }

  lemma LeavesAt(e: Entry, o: string, q: Path)
    ensures Southbound.Get(Leaves(e, o), q) == LiveAt(e, q, o)
  {
    Southbound.NodePathsAt(e, q);
  }

  /** Writing one intent back: an intent without content leaves the store. */
  function Saved(store: Store, e: Entry, t: TxIntent): Store {
    if Leaves(e, t.name) == map[] then store - {t.name}
    else store[t.name := Intent(t.priority, Leaves(e, t.name), t.nonRevertive, t.orphan)]
  }

  function StoreAfter(store: Store, e: Entry, ts: seq<TxIntent>): Store {
    if ts == [] then store else Saved(StoreAfter(store, e, ts[..|ts| - 1]), e, ts[|ts| - 1])
  }

  lemma {:induction false} StoreAfterOthers(store: Store, e: Entry, ts: seq<TxIntent>, o: string)
    requires forall i | 0 <= i < |ts| :: ts[i].name != o
    ensures (o in StoreAfter(store, e, ts) <==> o in store) && (o in store ==> StoreAfter(store, e, ts)[o] == store[o])
    decreases |ts|
  {
    if ts != [] {
      StoreAfterOthers(store, e, ts[..|ts| - 1], o);
    }
  }

  lemma {:induction false} StoreAfterOwn(store: Store, e: Entry, ts: seq<TxIntent>, i: nat)
    requires i < |ts| && DistinctNames(ts)
    ensures var o := ts[i].name;
            && (o in StoreAfter(store, e, ts) <==> Leaves(e, o) != map[])
            && (o in StoreAfter(store, e, ts) ==>
                  StoreAfter(store, e, ts)[o] == Intent(ts[i].priority, Leaves(e, o), ts[i].nonRevertive, ts[i].orphan))
    decreases |ts|
  {
    if i < |ts| - 1 {
      assert ts[i].name != ts[|ts| - 1].name;
      StoreAfterOwn(store, e, ts[..|ts| - 1], i);
    }
  }

  /** A tree into which exactly the store's intents have been loaded. */
  ghost predicate Loaded(e: Entry, store: Store) {
    forall q, o | IsIntent(o) ::
      match VariantAt(e, q, o)
      case None => !(o in store && q in store[o].leaves)
      case Some(l) => o in store && q in store[o].leaves && l.value == store[o].leaves[q] && l.priority == store[o].priority && !l.delete && !l.onlyIntended && !l.isNew
  }

  /** A map of leaves that contains its own key leaves. */
  ghost predicate ClosedLeaves(c: Ctx, m: map<Path, Value>) {
    forall p, q | p in m && KeyLeafAt(c, [], p, q).Some? :: Southbound.Get(m, q) == KeyLeafAt(c, [], p, q)
  }

  ghost predicate StoreOk(c: Ctx, store: Store) {
    forall o | o in store :: IsIntent(o) && store[o].leaves != map[] && ClosedLeaves(c, store[o].leaves)
  }

  // ---------------------------------------------------------------- what a transaction records

  predicate Lists(us: seq<(Path, Value)>, m: map<Path, Value>) {
    && (forall i | 0 <= i < |us| :: us[i].0 in m && m[us[i].0] == us[i].1)
    && (forall q | q in m :: exists i | 0 <= i < |us| :: us[i].0 == q)
  }

  /** Reinserting closed content, in any order, gives back that content. */
  lemma {:induction false} ListedContent(c: Ctx, us: seq<(Path, Value)>, n: nat, m: map<Path, Value>, q: Path)
    requires n <= |us| && ClosedLeaves(c, m) && forall i | 0 <= i < |us| :: us[i].0 in m && m[us[i].0] == us[i].1
    ensures ContentOf(c, us[..n], q).Some? ==> ContentOf(c, us[..n], q) == Southbound.Get(m, q)
    ensures (exists i | 0 <= i < n :: us[i].0 == q) ==> ContentOf(c, us[..n], q) == Southbound.Get(m, q)
    decreases n
  {
    if n > 0 {
      assert us[..n][..n - 1] == us[..n - 1];
      ListedContent(c, us, n - 1, m, q);
      assert us[n - 1].0 in m;
    }
  }

  lemma ContentIsListed(c: Ctx, us: seq<(Path, Value)>, m: map<Path, Value>, q: Path)
    requires ClosedLeaves(c, m) && Lists(us, m)
    ensures ContentOf(c, us, q) == Southbound.Get(m, q)
  {
    assert us[..|us|] == us;
    ListedContent(c, us, |us|, m, q);
  }

  function Before(store: Store, o: string): map<Path, Value> {
    if o in store then store[o].leaves else map[]
  }

  /** The old content a transaction keeps for an intent: all of it, at its old priority. */
  predicate Recorded(t: TxIntent, store: Store) {
    && !t.delete && !t.orphan && !t.nonRevertive && !t.previouslyApplied
    && Lists(t.updates, Before(store, t.name))
    && t.priority == if t.name in store then store[t.name].priority else MAX_PRIO
  }

  predicate SameNames(ts: seq<TxIntent>, rs: seq<TxIntent>) {
    && (forall i | 0 <= i < |ts| :: Named(rs, ts[i].name))
    && (forall j | 0 <= j < |rs| :: Named(ts, rs[j].name))
  }

  lemma RecordedAcceptable(c: Ctx, store: Store, t: TxIntent)
    requires StoreOk(c, store) && Recorded(t, store) && IsIntent(t.name)
    ensures Acceptable(c, t)
  {
    forall i | 0 <= i < |t.updates| ensures KeyConsistent(c, [], t.updates[i].0, t.updates[i].1) {
      assert t.updates[i].0 in Before(store, t.name);
    }
  }

  /** A rolled back intent has its old content again, or none if it had none. */
  lemma RolledBackLeaves(c: Ctx, store: Store, f: Entry, rs: seq<TxIntent>, j: nat)
    requires StoreOk(c, store) && TreeOk(f, c) && Runnable(c, rs) && j < |rs| && ApplyIntents(f, c, rs).Some?
    requires Recorded(rs[j], store)
    ensures Leaves(ApplyIntents(f, c, rs).value, rs[j].name) == Before(store, rs[j].name)
  {
    var f', o := ApplyIntents(f, c, rs).value, rs[j].name;
    var got, want := Leaves(f', o), Before(store, o);
    forall q ensures Southbound.Get(got, q) == Southbound.Get(want, q) {
      LeavesAt(f', o, q);
      ApplyIntentsOwn(f, c, rs, q, j);
      ContentIsListed(c, rs[j].updates, want, q);
    }
    Southbound.SameMaps(got, want);
  }

  /** What an intent of the store looks like after the transaction and its rollback. */
  ghost predicate Restored(store: Store, after: Store, o: string) {
    && (o in after <==> o in store)
    && (o in store ==> after[o].leaves == store[o].leaves && after[o].priority == store[o].priority)
  }

  lemma RecordedRunnable(c: Ctx, store: Store, rs: seq<TxIntent>)
    requires StoreOk(c, store) && DistinctNames(rs)
    requires forall j | 0 <= j < |rs| :: Recorded(rs[j], store) && IsIntent(rs[j].name)
    ensures Runnable(c, rs)
  {
    forall j | 0 <= j < |rs| ensures Acceptable(c, rs[j]) {
      RecordedAcceptable(c, store, rs[j]);
    }
  }

  lemma RolledBack(c: Ctx, store: Store, store1: Store, f: Entry, rs: seq<TxIntent>, j: nat)
    requires StoreOk(c, store) && TreeOk(f, c) && Runnable(c, rs) && ApplyIntents(f, c, rs).Some?
    requires j < |rs| && Recorded(rs[j], store)
    ensures Restored(store, StoreAfter(store1, ApplyIntents(f, c, rs).value, rs), rs[j].name)
  {
    RolledBackLeaves(c, store, f, rs, j);
    StoreAfterOwn(store1, ApplyIntents(f, c, rs).value, rs, j);
  }

  predicate Named(ts: seq<TxIntent>, o: string) {
    exists i | 0 <= i < |ts| :: ts[i].name == o
  }

  lemma LeftAlone(store: Store, e: Entry, ts: seq<TxIntent>, f: Entry, rs: seq<TxIntent>, o: string)
    requires !Named(ts, o) && !Named(rs, o)
    ensures Restored(store, StoreAfter(StoreAfter(store, e, ts), f, rs), o)
  {
    StoreAfterOthers(store, e, ts, o);
    StoreAfterOthers(StoreAfter(store, e, ts), f, rs, o);
  }

  /** Rollback inverse: a transaction followed by the transaction of the old contents it recorded
      restores every intent's leaves and priority, created and removed intents included. */
  lemma {:induction false} RollbackInverse(c: Ctx, store: Store, e: Entry, ts: seq<TxIntent>, f: Entry, rs: seq<TxIntent>, o: string)
    requires StoreOk(c, store) && DistinctNames(rs) && SameNames(ts, rs)
    requires forall j | 0 <= j < |rs| :: Recorded(rs[j], store) && IsIntent(rs[j].name)
    requires TreeOk(f, c) && ApplyIntents(f, c, rs).Some?
    ensures Restored(store, StoreAfter(StoreAfter(store, e, ts), ApplyIntents(f, c, rs).value, rs), o)
  {
    if Named(rs, o) {
      var j: nat :| j < |rs| && rs[j].name == o;
      RecordedRunnable(c, store, rs);
      RolledBack(c, store, StoreAfter(store, e, ts), f, rs, j);
    } else {
      LeftAlone(store, e, ts, ApplyIntents(f, c, rs).value, rs, o);
    }
  }

  /** The non-revertive and orphan marks of an intent survive a rollback only if they were unset. */
  lemma RollbackDropsMarks(c: Ctx, store: Store, store1: Store, f: Entry, rs: seq<TxIntent>, j: nat)
    requires StoreOk(c, store) && TreeOk(f, c) && Runnable(c, rs) && ApplyIntents(f, c, rs).Some?
    requires j < |rs| && Recorded(rs[j], store) && rs[j].name in store
    ensures var after := StoreAfter(store1, ApplyIntents(f, c, rs).value, rs);
            && rs[j].name in after
            && (after[rs[j].name] == store[rs[j].name] <==> !store[rs[j].name].nonRevertive && !store[rs[j].name].orphan)
  {
    RolledBackLeaves(c, store, f, rs, j);
    StoreAfterOwn(store1, ApplyIntents(f, c, rs).value, rs, j);
  }

  /** A root with the single leaf "x". */
  function SmallRoot(): Ctx {
    Ctx(Container([], false, map["x" := Field("string")], map[]), 0)
  }

  function SmallLeaves(): map<Path, Value> {
    map[["x"] := Value("string", "v")]
  }

  function MarkedStore(): Store {
    map["a" := Intent(5, SmallLeaves(), true, false)]
  }

  function RollbackOfA(): TxIntent {
    TxIntent("a", 5, false, false, false, false, [(["x"], Value("string", "v"))])
  }

  lemma {:induction false} SmallRootHasNoKeys(p: Path, q: Path)
    ensures KeyLeafAt(SmallRoot(), [], p, q).None?
  {
    assert Alphabetical([]) == [] && KeyNames(SmallRoot()) == [];
    if p != [] && q != [] && p[0] == q[0] && ChildCtx(SmallRoot(), p[0]).Some? {
      assert ChildCtx(SmallRoot(), p[0]) == Some(Ctx(Field("string"), 0));
      assert KeyLeafAt(Ctx(Field("string"), 0), [], p[1..], q[1..]).None?;
    }
  }

  lemma {:induction false} SmallRootTree()
    ensures TreeOk(NewEntry(SmallRoot()), SmallRoot()) && ApplyIntents(NewEntry(SmallRoot()), SmallRoot(), [RollbackOfA()]).Some?
  {
    var c, f, t := SmallRoot(), NewEntry(SmallRoot()), RollbackOfA();
    NewEntryEmpty(c, [], RUNNING);
    forall q ensures KeyLeafAt(c, [], q, q).None? {
      SmallRootHasNoKeys(q, q);
    }
    var u := Update(["x"], Variant(t, Value("string", "v")));
    assert Alphabetical([]) == [] && KeyNames(c) == [];
    assert ["x"][1..] == [] && CtxAt(c, ["x"]).Some?;
    AddUpdateSucceeds(MarkAll(f, t.name, t.orphan), c, [], u.path, u.le);
    assert ToUpdates(t) == [u] && [u][..0] == [];
    assert AddAll(MarkAll(f, t.name, t.orphan), c, [u]).Some?;
    assert [t][..0] == [];
  }

  /** The failing store: the intent was non-revertive, and is not after the rollback. */
  lemma {:induction false} MarkIsLost(store1: Store)
    ensures StoreOk(SmallRoot(), MarkedStore())
    ensures var after := StoreAfter(store1, ApplyIntents(NewEntry(SmallRoot()), SmallRoot(), [RollbackOfA()]).value, [RollbackOfA()]);
            ApplyIntents(NewEntry(SmallRoot()), SmallRoot(), [RollbackOfA()]).Some? && "a" in after && after["a"] != MarkedStore()["a"]
  {
    var c, rs := SmallRoot(), [RollbackOfA()];
    SmallRootTree();
    forall p, q ensures KeyLeafAt(c, [], p, q).None? {
      SmallRootHasNoKeys(p, q);
    }
    assert |RUNNING| == 7 && |DEFAULT| == 7 && IsIntent("a");
    assert ["x"] in SmallLeaves();
    assert RollbackOfA().updates[0].0 == ["x"];
    assert Lists(RollbackOfA().updates, SmallLeaves());
    RollbackDropsMarks(c, MarkedStore(), store1, NewEntry(c), rs, 0);
  }

  // ---------------------------------------------------------------- the store stays sound

  /** What an intent's updates amount to contains its own key leaves. */
  lemma {:induction false} ContentClosed(c: Ctx, us: seq<(Path, Value)>, p: Path, q: Path)
    requires forall i | 0 <= i < |us| :: KeyConsistent(c, [], us[i].0, us[i].1)
    requires ContentOf(c, us, p).Some? && KeyLeafAt(c, [], p, q).Some?
    ensures ContentOf(c, us, q) == KeyLeafAt(c, [], p, q)
    decreases |us|
  {
    var front, u := us[..|us| - 1], us[|us| - 1];
    KeyLeafSelf(c, [], p, q);
    if q == u.0 {
      assert KeyConsistent(c, [], u.0, u.1);
    } else if KeyLeafAt(c, [], u.0, q).Some? {
      KeyLeafSelf(c, [], u.0, q);
    } else if p != u.0 && KeyLeafAt(c, [], u.0, p).Some? {
      KeyLeafTrans(c, [], u.0, p, q);
    } else {
      ContentClosed(c, front, p, q);
    }
  }

  lemma SavedClosed(c: Ctx, e: Entry, ts: seq<TxIntent>, i: nat)
    requires TreeOk(e, c) && Runnable(c, ts) && ApplyIntents(e, c, ts).Some? && i < |ts|
    ensures ClosedLeaves(c, Leaves(ApplyIntents(e, c, ts).value, ts[i].name))
  {
    var e', t := ApplyIntents(e, c, ts).value, ts[i];
    var m := Leaves(e', t.name);
    forall p, q | p in m && KeyLeafAt(c, [], p, q).Some? ensures Southbound.Get(m, q) == KeyLeafAt(c, [], p, q) {
      LeavesAt(e', t.name, p);
      LeavesAt(e', t.name, q);
      ApplyIntentsOwn(e, c, ts, p, i);
      ApplyIntentsOwn(e, c, ts, q, i);
      ContentClosed(c, t.updates, p, q);
    }
  }

  /** A transaction leaves the store sound, even if only its first n intents are written back: no
      empty intents, all key leaves in place. */
  lemma StoreStaysOk(c: Ctx, store: Store, e: Entry, ts: seq<TxIntent>, n: nat)
    requires StoreOk(c, store) && TreeOk(e, c) && Runnable(c, ts) && ApplyIntents(e, c, ts).Some? && n <= |ts|
    requires forall i | 0 <= i < |ts| :: IsIntent(ts[i].name)
    ensures StoreOk(c, StoreAfter(store, ApplyIntents(e, c, ts).value, ts[..n]))
  {
    var e' := ApplyIntents(e, c, ts).value;
    var after := StoreAfter(store, e', ts[..n]);
    forall o | o in after ensures IsIntent(o) && after[o].leaves != map[] && ClosedLeaves(c, after[o].leaves) {
      if Named(ts[..n], o) {
        var i: nat :| i < n && ts[..n][i].name == o;
        StoreAfterOwn(store, e', ts[..n], i);
        SavedClosed(c, e, ts, i);
      } else {
        StoreAfterOthers(store, e', ts[..n], o);
      }
    }
  }

  // ---------------------------------------------------------------- recording the old content

  /** All variants of an owner, with their paths (pkg/tree/ops/getbyowner.go). */
  ghost predicate ListsOwner(e: Entry, owner: string, found: seq<(Path, L.LeafEntry)>) {
    forall x :: x in found <==> VariantAt(e, x.0, owner) == Some(x.1)
  }

  function RecordedUpdates(found: seq<(Path, L.LeafEntry)>): seq<(Path, Value)> {
    seq(|found|, i requires 0 <= i < |found| => (found[i].0, found[i].1.value))
  }

  /** The old intent a transaction keeps; the priority is that of any old leaf. */
  function Recording(name: string, found: seq<(Path, L.LeafEntry)>): TxIntent {
    TxIntent(name, if found == [] then MAX_PRIO else found[0].1.priority, false, false, false, false, RecordedUpdates(found))
  }

  /** The content found in a loaded tree is the intent's whole old content. */
  lemma RecordingIsRecorded(e: Entry, store: Store, name: string, found: seq<(Path, L.LeafEntry)>)
    requires Loaded(e, store) && IsIntent(name) && ListsOwner(e, name, found)
    requires name in store ==> store[name].leaves != map[]
    ensures Recorded(Recording(name, found), store)
  {
    var us, m := RecordedUpdates(found), Before(store, name);
    forall i | 0 <= i < |us| ensures us[i].0 in m && m[us[i].0] == us[i].1 && name in store && found[i].1.priority == store[name].priority {
      assert found[i] in found && VariantAt(e, found[i].0, name).Some?;
    }
    forall q | q in m ensures exists i | 0 <= i < |us| :: us[i].0 == q {
      var v := VariantAt(e, q, name);
      assert (q, v.value) in found;
      var i :| 0 <= i < |found| && found[i] == (q, v.value);
      assert us[i].0 == q;
    }
    if name in store {
      var q :| q in m;
      assert found != [];
    }
  }
}
