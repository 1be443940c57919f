/** The transaction and the datastore as they change in place (pkg/datastore/types/transaction.go,
    pkg/datastore/transaction_rpc.go, pkg/tree/ops/getbyowner.go). */
module Datastores {
  import opened Base
  import opened Tree
  import opened Paths
  import opened Growth
  import opened Insertion
  import opened Transactions
  import opened Placement
  import L = Leaves
  import X = Export
  import Southbound
  import Loading
  import Shapes
  import O = Outcomes
  import R = Ranks

  // ---------------------------------------------------------------- an owner's content

  function Prefixed(k: string, xs: seq<(Path, L.LeafEntry)>): seq<(Path, L.LeafEntry)> {
    seq(|xs|, i requires 0 <= i < |xs| => ([k] + xs[i].0, xs[i].1))
  }

  lemma PrefixedMembers(k: string, xs: seq<(Path, L.LeafEntry)>, x: (Path, L.LeafEntry))
    ensures x in Prefixed(k, xs) <==> x.0 != [] && x.0[0] == k && (x.0[1..], x.1) in xs
  {
    if x in Prefixed(k, xs) {
      var i :| 0 <= i < |xs| && Prefixed(k, xs)[i] == x;
      assert x.0[1..] == xs[i].0;
    }
    if x.0 != [] && x.0[0] == k && (x.0[1..], x.1) in xs {
      var i :| 0 <= i < |xs| && xs[i] == (x.0[1..], x.1);
      assert [k] + xs[i].0 == x.0;
      assert Prefixed(k, xs)[i] == x;
    }
  }

  /** x is the owner's variant at an entry reached through one of the done children. */
  ghost predicate FoundIn(e: Entry, owner: string, done: set<string>, x: (Path, L.LeafEntry)) {
    (x.0 == [] || x.0[0] in done) && VariantAt(e, x.0, owner) == Some(x.1)
  }

  lemma FoundMore(e: Entry, owner: string, done: set<string>, k: string, xs: seq<(Path, L.LeafEntry)>, x: (Path, L.LeafEntry))
    requires k in e.children && k !in done && ListsOwner(e.children[k], owner, xs)
    ensures FoundIn(e, owner, done + {k}, x) <==> FoundIn(e, owner, done, x) || x in Prefixed(k, xs)
  {
    PrefixedMembers(k, xs, x);
    if x.0 != [] && x.0[0] == k {
      assert (x.0[1..], x.1) in xs <==> VariantAt(e.children[k], (x.0[1..], x.1).0, owner) == Some(x.1);
    }
  }

  /** LeafsOfOwner: every variant of the owner in the tree, and nothing else. */
  method LeafsOfOwner(e: Entry, owner: string) returns (found: seq<(Path, L.LeafEntry)>)
    ensures ListsOwner(e, owner, found)
    decreases e
  {
    var here := L.ByOwner(e.les, owner);
    found := if here.Some? then [([], here.value)] else [];
    var todo := e.children.Keys;
    assert e.children.Keys - todo == {};
    while todo != {}
      invariant todo <= e.children.Keys
      invariant forall x :: x in found <==> FoundIn(e, owner, e.children.Keys - todo, x)
      decreases todo
    {
      var k :| k in todo;
      ghost var done := e.children.Keys - todo;
      var below := LeafsOfOwner(e.children[k], owner);
      forall x ensures FoundIn(e, owner, done + {k}, x) <==> FoundIn(e, owner, done, x) || x in Prefixed(k, below) {
        FoundMore(e, owner, done, k, below, x);
      }
      found := found + Prefixed(k, below);
      todo := todo - {k};
      assert e.children.Keys - todo == done + {k};
    }
    assert e.children.Keys - todo == e.children.Keys;
  }

  // ---------------------------------------------------------------- the transaction

  predicate Keyed(m: map<string, TxIntent>) {
    forall n | n in m :: m[n].name == n
  }

  class Transaction {
    var newIntents: map<string, TxIntent>
    var oldIntents: map<string, TxIntent>
    var isRollback: bool

    ghost predicate Valid()
      reads this
    {
      Keyed(newIntents) && Keyed(oldIntents)
    }

    constructor ()
      ensures Valid() && newIntents == map[] && oldIntents == map[] && !isRollback
    {
      newIntents, oldIntents, isRollback := map[], map[], false;
    }

    /** An intent can be added once. */
    method AddTransactionIntent(t: TxIntent) returns (ok: bool)
      requires Valid()
      modifies this`newIntents
      ensures Valid() && ok == (t.name !in old(newIntents))
      ensures newIntents == if ok then old(newIntents)[t.name := t] else old(newIntents)
    {
      ok := t.name !in newIntents;
      if ok {
        newIntents := newIntents[t.name := t];
      }
    }

    /** The old content of an intent is recorded once. */
    method AddIntentContent(name: string, found: seq<(Path, L.LeafEntry)>) returns (ok: bool)
      requires Valid()
      modifies this`oldIntents
      ensures Valid() && ok == (name !in old(oldIntents))
      ensures oldIntents == if ok then old(oldIntents)[name := Recording(name, found)] else old(oldIntents)
    {
      ok := name !in oldIntents;
      if ok {
        oldIntents := oldIntents[name := Recording(name, found)];
      }
    }

    /** The transaction that sets every recorded old content again. */
    method GetRollbackTransaction() returns (tr: Transaction)
      requires Valid()
      ensures fresh(tr) && tr.Valid() && tr.isRollback
      ensures tr.newIntents == oldIntents && tr.oldIntents == map[]
    {
      tr := new Transaction();
      var todo := oldIntents.Keys;
      while todo != {}
        invariant fresh(tr) && tr.Valid() && tr.oldIntents == map[] && todo <= oldIntents.Keys
        invariant tr.newIntents.Keys == oldIntents.Keys - todo
        invariant forall n | n in tr.newIntents :: tr.newIntents[n] == oldIntents[n]
        decreases todo
      {
        var n :| n in todo;
        var ok := tr.AddTransactionIntent(oldIntents[n]);
        todo := todo - {n};
      }
      tr.isRollback := true;
      assert tr.newIntents == oldIntents;
    }
  }

  // ---------------------------------------------------------------- the datastore

  /** ts lists the intents of a transaction in some order. */
  predicate Orders(ts: seq<TxIntent>, m: map<string, TxIntent>) {
    && DistinctNames(ts)
    && (forall i | 0 <= i < |ts| :: ts[i].name in m && m[ts[i].name] == ts[i])
    && (forall n | n in m :: Named(ts, n))
  }

  predicate Submittable(c: Ctx, m: map<string, TxIntent>) {
    Keyed(m) && forall n | n in m :: IsIntent(n) && Acceptable(c, m[n]) && Placed(c, m[n].updates)
  }

  ghost predicate RecordsAll(m: map<string, TxIntent>, names: set<string>, store: Store) {
    m.Keys == names && Keyed(m) && forall n | n in m :: Recorded(m[n], store)
  }

  lemma {:induction false} ApplySnoc(e: Entry, c: Ctx, ts: seq<TxIntent>, t: TxIntent)
    ensures ApplyIntents(e, c, ts + [t]) ==
            match ApplyIntents(e, c, ts) case None => None case Some(m) => ApplyIntent(m, c, t)
  {
    assert (ts + [t])[..|ts|] == ts;
  }

  /** Other intents of the transaction do not disturb what is found of an intent's old content. */
  lemma StillLoaded(e: Entry, c: Ctx, ts: seq<TxIntent>, store: Store, name: string, found: seq<(Path, L.LeafEntry)>)
    requires TreeOk(e, c) && Runnable(c, ts) && ApplyIntents(e, c, ts).Some? && IsIntent(name) && !Named(ts, name)
    requires ListsOwner(ApplyIntents(e, c, ts).value, name, found)
    ensures ListsOwner(e, name, found)
  {
    forall x ensures x in found <==> VariantAt(e, x.0, name) == Some(x.1) {
      ApplyIntentsOthers(e, c, ts, x.0, name);
    }
  }

  /** One more intent in the order in which they are taken. */
  lemma TakenSnoc(c: Ctx, ts: seq<TxIntent>, t: TxIntent)
    requires Runnable(c, ts) && Acceptable(c, t) && !Named(ts, t.name)
    ensures Runnable(c, ts + [t]) && forall n :: Named(ts + [t], n) <==> Named(ts, n) || n == t.name
  {
    var us := ts + [t];
    forall n ensures Named(us, n) <==> Named(ts, n) || n == t.name {
      if Named(ts, n) {
        var i :| 0 <= i < |ts| && ts[i].name == n;
        assert us[i].name == n;
      }
      if n == t.name {
        assert us[|ts|].name == n;
      }
    }
  }

  /** ts lists the intents of a transaction that have been taken. */
  ghost predicate Taken(c: Ctx, ts: seq<TxIntent>, m: map<string, TxIntent>, done: set<string>) {
    && Runnable(c, ts)
    && (forall i | 0 <= i < |ts| :: ts[i].name in m && m[ts[i].name] == ts[i])
    && (forall n :: Named(ts, n) <==> n in done)
  }

  lemma TakenStep(c: Ctx, ts: seq<TxIntent>, m: map<string, TxIntent>, done: set<string>, n: string)
    requires Taken(c, ts, m, done) && Submittable(c, m) && n in m && n !in done
    ensures Taken(c, ts + [m[n]], m, done + {n})
  {
    assert m[n].name == n;
    TakenSnoc(c, ts, m[n]);
    var us := ts + [m[n]];
    forall i | 0 <= i < |us| ensures us[i].name in m && m[us[i].name] == us[i] {
      assert i < |ts| ==> us[i] == ts[i];
    }
  }

  lemma RecordsStep(m: map<string, TxIntent>, m': map<string, TxIntent>, done: set<string>, n: string, store: Store)
    requires RecordsAll(m, done, store) && m'.Keys == m.Keys + {n} && Keyed(m') && Recorded(m'[n], store)
    requires forall x | x in m :: m'[x] == m[x]
    ensures RecordsAll(m', done + {n}, store)
  {
  }

  lemma TakenAll(c: Ctx, ts: seq<TxIntent>, m: map<string, TxIntent>)
    requires Taken(c, ts, m, m.Keys)
    ensures Orders(ts, m)
  {
  }

  // ---------------------------------------------------------------- persisted intents and what they hold

  /** The persisted intents stand for the leaves of the store. */
  ghost predicate Stands(c: Ctx, intended: map<string, X.Intent>, store: Store) {
    && intended.Keys == store.Keys
    && forall n | n in store ::
         && intended[n].name == n && Loading.StandsFor(c, intended[n].root, store[n].leaves)
         && store[n] == Loading.Stored(intended[n], store[n].leaves)
  }

  /** The tree of running and defaults that the intents are loaded into. */
  ghost predicate BaseCtx(c: Ctx) {
    Shapes.CtxOk(c) && c.level == 0 && KeyNames(c) == []
  }

  ghost predicate BaseOk(c: Ctx, running: Entry) {
    && BaseCtx(c)
    && OwnersUnique(running) && X.Typed(running, c) && Loaded(running, map[]) && Matching(running, c, [], RUNNING)
  }

  /** The schema knows every path the transaction updates. */
  ghost predicate AllKnown(c: Ctx, m: map<string, TxIntent>) {
    forall n | n in m :: O.KnownPaths(c, m[n])
  }

  /** What the transaction brings ranks before running. */
  ghost predicate AllRanked(m: map<string, TxIntent>) {
    forall n | n in m :: O.Ranked(m[n])
  }

  lemma KnownOrder(root: Entry, c: Ctx, ts: seq<TxIntent>, m: map<string, TxIntent>)
    requires Orders(ts, m) && Keyed(m)
    ensures ApplyIntents(root, c, ts).Some? <==> AllKnown(c, m)
  {
    O.TransactionSucceeds(root, c, ts);
    forall n | n in m ensures exists i | 0 <= i < |ts| :: ts[i] == m[n] {
      var i :| 0 <= i < |ts| && ts[i].name == n;
      assert ts[i] == m[n];
    }
  }

  lemma UnknownTaken(root: Entry, c: Ctx, ts: seq<TxIntent>, m: map<string, TxIntent>, done: set<string>)
    requires Taken(c, ts, m, done) && ApplyIntents(root, c, ts).None?
    ensures !AllKnown(c, m)
  {
    O.TransactionSucceeds(root, c, ts);
  }

  lemma OrderlyOrder(c: Ctx, ts: seq<TxIntent>, m: map<string, TxIntent>)
    requires Orders(ts, m) && Submittable(c, m) && AllRanked(m)
    ensures O.Orderly(c, ts)
  {
    OrderRunnable(c, ts, m);
  }

  ghost predicate Fit(c: Ctx, root: Entry, store: Store) {
    TreeOk(root, c) && X.Typed(root, c) && Loaded(root, store)
  }

  /** What the outside world answers: validation, the device, and the write of the intents. */
  datatype Env = Env(valid: bool, dryRun: bool, deviceOk: bool, failAt: Option<nat>)

  /** Everything goes well. */
  predicate Willing(env: Env) {
    env.valid && !env.dryRun && env.deviceOk && env.failAt.None?
  }

  datatype Outcome = Refused | DryRun | Stopped | Done

  class Datastore {
    var intended: map<string, X.Intent>
    ghost var store: Store

    ghost predicate Valid(c: Ctx)
      reads this
    {
      Stands(c, intended, store) && StoreOk(c, store) && StorePlaced(c, store)
    }

    constructor (c: Ctx)
      ensures Valid(c) && store == map[]
    {
      intended, store := map[], map[];
    }

    /** The persisted intents, in any order. */
    method Enumerate() returns (xs: seq<X.Intent>)
      requires forall n | n in intended :: intended[n].name == n
      ensures Loading.DistinctIntents(xs)
      ensures forall j | 0 <= j < |xs| :: xs[j].name in intended && intended[xs[j].name] == xs[j]
      ensures forall n | n in intended :: exists j | 0 <= j < |xs| :: xs[j].name == n
    {
      xs := [];
      var todo := intended.Keys;
      while todo != {}
        invariant todo <= intended.Keys && Loading.DistinctIntents(xs)
        invariant forall j | 0 <= j < |xs| :: xs[j].name in intended && xs[j].name !in todo && intended[xs[j].name] == xs[j]
        invariant forall n | n in intended && n !in todo :: exists j | 0 <= j < |xs| :: xs[j].name == n
        decreases todo
      {
        var n :| n in todo;
        ghost var before := xs;
        xs := xs + [intended[n]];
        assert xs[|before|].name == n && forall j | 0 <= j < |before| :: xs[j] == before[j];
        todo := todo - {n};
      }
    }

    /** Loads the intended store into a copy of the tree of running and defaults. */
    method Load(running: Entry, c: Ctx) returns (root: Entry)
      requires Valid(c) && BaseOk(c, running)
      ensures Fit(c, root, store)
      ensures O.StoreRanked(store) ==> forall w | R.Fine(running, c, w) :: R.Fine(root, c, w)
    {
      var xs := Enumerate();
      ghost var s := store;
      ghost var leaves := seq(|xs|, j requires 0 <= j < |xs| && xs[j].name in s => s[xs[j].name].leaves);
      root := Loading.LoadAll(running, c, xs, leaves);
      Loading.StoreOfIs(xs, leaves, store);
      LoadedOk(root, c, store);
    }

    /** One intent: its old content is recorded and marked, its new content added. */
    method Take(root: Entry, c: Ctx, tx: Transaction, ghost ts: seq<TxIntent>, tree: Entry, t: TxIntent) returns (next: Option<Entry>)
      requires tx.Valid() && IsIntent(t.name) && Acceptable(c, t) && !Named(ts, t.name) && t.name !in tx.oldIntents
      requires StoreOk(c, store) && Loaded(root, store) && TreeOk(root, c)
      requires Runnable(c, ts) && ApplyIntents(root, c, ts) == Some(tree)
      modifies tx`oldIntents
      ensures tx.Valid() && next == ApplyIntents(root, c, ts + [t])
      ensures tx.oldIntents.Keys == old(tx.oldIntents).Keys + {t.name} && Recorded(tx.oldIntents[t.name], store)
      ensures forall n | n in old(tx.oldIntents) :: tx.oldIntents[n] == old(tx.oldIntents)[n]
    {
      var found := LeafsOfOwner(tree, t.name);
      StillLoaded(root, c, ts, store, t.name, found);
      RecordingIsRecorded(root, store, t.name, found);
      var added := tx.AddIntentContent(t.name, found);
      ApplySnoc(root, c, ts, t);
      next := ApplyIntent(tree, c, t);
    }

    /** One more intent of the transaction. */
    method TakeNext(root: Entry, c: Ctx, tx: Transaction, ts: seq<TxIntent>, tree: Entry, n: string, ghost done: set<string>)
      returns (next: Option<Entry>)
      requires tx.Valid() && Submittable(c, tx.newIntents) && n in tx.newIntents && n !in done
      requires StoreOk(c, store) && Loaded(root, store) && TreeOk(root, c)
      requires Taken(c, ts, tx.newIntents, done) && ApplyIntents(root, c, ts) == Some(tree) && RecordsAll(tx.oldIntents, done, store)
      modifies tx`oldIntents
      ensures tx.Valid() && next == ApplyIntents(root, c, ts + [tx.newIntents[n]])
      ensures Taken(c, ts + [tx.newIntents[n]], tx.newIntents, done + {n}) && RecordsAll(tx.oldIntents, done + {n}, store)
    {
      ghost var before := tx.oldIntents;
      assert !Named(ts, n) && tx.newIntents[n].name == n;
      next := Take(root, c, tx, ts, tree, tx.newIntents[n]);
      TakenStep(c, ts, tx.newIntents, done, n);
      RecordsStep(before, tx.oldIntents, done, n, store);
    }

    /** Takes the transaction's intents one by one, in any order. */
    method ApplyAll(root: Entry, c: Ctx, tx: Transaction) returns (r: Option<Entry>, ts: seq<TxIntent>)
      requires tx.Valid() && tx.oldIntents == map[] && Submittable(c, tx.newIntents)
      requires StoreOk(c, store) && Loaded(root, store) && TreeOk(root, c)
      modifies tx`oldIntents
      ensures tx.Valid() && (r.Some? ==> Orders(ts, tx.newIntents) && ApplyIntents(root, c, ts) == r)
      ensures r.Some? ==> RecordsAll(tx.oldIntents, tx.newIntents.Keys, store)
      ensures r.Some? <==> AllKnown(c, tx.newIntents)
    {
      ts := [];
      r := Some(root);
      var todo := tx.newIntents.Keys;
      ghost var done: set<string> := {};
      while todo != {}
        invariant tx.Valid() && todo + done == tx.newIntents.Keys && todo !! done
        invariant Taken(c, ts, tx.newIntents, done) && r.Some? && ApplyIntents(root, c, ts) == r
        invariant RecordsAll(tx.oldIntents, done, store)
        decreases todo
      {
        var n :| n in todo;
        r := TakeNext(root, c, tx, ts, r.value, n, done);
        ts := ts + [tx.newIntents[n]];
        todo, done := todo - {n}, done + {n};
        if r.None? {
          UnknownTaken(root, c, ts, tx.newIntents, done);
          return;
        }
      }
      assert done == tx.newIntents.Keys;
      TakenAll(c, ts, tx.newIntents);
      KnownOrder(root, c, ts, tx.newIntents);
    }

    /** Exports one intent and writes it; one without content leaves the store. */
    method WriteOne(tree: Entry, c: Ctx, t: TxIntent)
      requires Stands(c, intended, store) && X.RootOk(tree, c, t.name)
      modifies this
      ensures Stands(c, intended, store) && store == Saved(old(store), tree, t)
    {
      var r := X.TreeExport(tree, c, t.name, t.priority, t.nonRevertive, [], t.orphan);
      NoLeaves(tree, t.name);
      store := Saved(store, tree, t);
      if r.None? {
        intended := intended - {t.name};
      } else {
        Loading.ExportStandsForLeaves(tree, c, r.value);
        intended := intended[t.name := r.value];
      }
    }

    /** Writes the transaction's intents back, up to the first write that fails. */
    method WriteBack(tree: Entry, c: Ctx, ts: seq<TxIntent>, failAt: Option<nat>) returns (written: nat)
      requires Stands(c, intended, store) && forall i | 0 <= i < |ts| :: X.RootOk(tree, c, ts[i].name)
      modifies this
      ensures written == if failAt.Some? && failAt.value < |ts| then failAt.value else |ts|
      ensures Stands(c, intended, store) && store == StoreAfter(old(store), tree, ts[..written])
    {
      for i := 0 to |ts|
        invariant Stands(c, intended, store) && store == StoreAfter(old(store), tree, ts[..i])
        invariant failAt.Some? ==> i <= failAt.value
      {
        if failAt == Some(i) {
          return i;
        }
        WriteOne(tree, c, ts[i]);
        OneMoreWritten(old(store), tree, ts, i);
      }
      assert ts[..|ts|] == ts;
      return |ts|;
    }

    /** Exports and writes what the transaction set. */
    method Commit(root: Entry, tree: Entry, c: Ctx, ghost m: map<string, TxIntent>, ts: seq<TxIntent>, failAt: Option<nat>) returns (written: nat)
      requires Valid(c) && BaseCtx(c) && TreeOk(root, c) && X.Typed(root, c)
      requires Orders(ts, m) && Submittable(c, m) && ApplyIntents(root, c, ts) == Some(tree)
      modifies this
      ensures written == if failAt.Some? && failAt.value < |ts| then failAt.value else |ts|
      ensures Valid(c) && store == StoreAfter(old(store), tree, ts[..written])
      ensures O.StoreRanked(old(store)) && AllRanked(m) ==> O.StoreRanked(store)
    {
      OrderRunnable(c, ts, m);
      forall i | 0 <= i < |ts| ensures X.RootOk(tree, c, ts[i].name) {
        TransactionExportable(root, c, ts, i);
      }
      ghost var store0 := store;
      written := WriteBack(tree, c, ts, failAt);
      StoreStaysOk(c, store0, root, ts, written);
      StoreStaysPlaced(c, store0, root, ts, written);
      if O.StoreRanked(store0) && AllRanked(m) {
        OrderlyOrder(c, ts, m);
        O.StoreStaysRanked(c, store0, root, ts, written);
      }
    }

    /** lowlevelTransactionSet, as far as the store is concerned: load, apply, and, if validation
        and the device agree, write back. What is not written stays as it was. */
    method TransactionSet(running: Entry, c: Ctx, tx: Transaction, env: Env)
      returns (outcome: Outcome, root: Entry, tree: Entry, ts: seq<TxIntent>, written: nat)
      requires tx.Valid() && tx.oldIntents == map[] && Submittable(c, tx.newIntents)
      requires Valid(c) && BaseOk(c, running)
      modifies this, tx`oldIntents
      ensures Valid(c) && tx.Valid() && Fit(c, root, old(store))
      ensures outcome.Refused? || outcome.DryRun? ==> store == old(store) && intended == old(intended)
      ensures outcome != Refused ==> Orders(ts, tx.newIntents) && ApplyIntents(root, c, ts) == Some(tree) && written <= |ts|
      ensures outcome.Stopped? || outcome.Done? ==> store == StoreAfter(old(store), tree, ts[..written])
      ensures outcome.Done? ==> written == |ts| && RecordsAll(tx.oldIntents, tx.newIntents.Keys, old(store))
      ensures outcome.Refused? <==> !AllKnown(c, tx.newIntents) || !env.valid || (!env.dryRun && !env.deviceOk)
      ensures outcome.DryRun? <==> AllKnown(c, tx.newIntents) && env.valid && env.dryRun
      ensures outcome.Stopped? <==> AllKnown(c, tx.newIntents) && env.valid && !env.dryRun && env.deviceOk && env.failAt.Some? && env.failAt.value < |ts|
      ensures AllKnown(c, tx.newIntents) && Willing(env) ==> outcome.Done?
      ensures outcome != Refused && O.StoreRanked(old(store)) && AllRanked(tx.newIntents) ==>
                O.StoreRanked(store) && forall w | R.Fine(running, c, w) :: R.Fine(tree, c, w)
    {
      root := Load(running, c);
      tree, written := root, 0;
      var r;
      r, ts := ApplyAll(root, c, tx);
      if r.None? || !env.valid {
        outcome := Refused;
        return;
      }
      tree := r.value;
      if O.StoreRanked(store) && AllRanked(tx.newIntents) {
        StaysFine(running, root, tree, c, ts, tx.newIntents);
      }
      if env.dryRun {
        outcome := DryRun;
        return;
      }
      if !env.deviceOk {
        outcome := Refused;
        return;
      }
      written := Commit(root, tree, c, tx.newIntents, ts, env.failAt);
      outcome := if written == |ts| then Done else Stopped;
    }
  }

  lemma {:induction false} StaysFine(running: Entry, root: Entry, tree: Entry, c: Ctx, ts: seq<TxIntent>, m: map<string, TxIntent>)
    requires Orders(ts, m) && Submittable(c, m) && AllRanked(m) && Shapes.CtxOk(c) && ApplyIntents(root, c, ts) == Some(tree)
    requires forall w | R.Fine(running, c, w) :: R.Fine(root, c, w)
    ensures forall w | R.Fine(running, c, w) :: R.Fine(tree, c, w)
  {
    OrderlyOrder(c, ts, m);
    forall w | R.Fine(running, c, w) ensures R.Fine(tree, c, w) {
      O.TransactionFine(root, c, w, ts);
    }
  }

  lemma {:induction false} OneMoreWritten(store: Store, tree: Entry, ts: seq<TxIntent>, i: nat)
    requires i < |ts|
    ensures StoreAfter(store, tree, ts[..i + 1]) == Saved(StoreAfter(store, tree, ts[..i]), tree, ts[i])
  {
    assert ts[..i + 1][..i] == ts[..i];
  }

  /** No leaves, nothing live. */
  lemma NoLeaves(e: Entry, o: string)
    ensures Leaves(e, o) == map[] <==> forall q :: LiveAt(e, q, o).None?
  {
    forall q ensures q in Leaves(e, o) <==> LiveAt(e, q, o).Some? {
      LeavesAt(e, o, q);
    }
    if forall q :: LiveAt(e, q, o).None? {
      Southbound.SameMaps(Leaves(e, o), map[]);
    }
  }

  lemma OrderRunnable(c: Ctx, ts: seq<TxIntent>, m: map<string, TxIntent>)
    requires Orders(ts, m) && Submittable(c, m)
    ensures Runnable(c, ts) && forall i | 0 <= i < |ts| :: IsIntent(ts[i].name) && Placed(c, ts[i].updates)
  {
  }

  lemma RecordsSubmittable(c: Ctx, m: map<string, TxIntent>, names: set<string>, store: Store)
    requires StoreOk(c, store) && StorePlaced(c, store) && RecordsAll(m, names, store) && forall n | n in names :: IsIntent(n)
    ensures Submittable(c, m) && AllKnown(c, m)
  {
    forall n | n in m ensures Acceptable(c, m[n]) && Placed(c, m[n].updates) && O.KnownPaths(c, m[n]) {
      RecordedAcceptable(c, store, m[n]);
      ListedPlaced(c, m[n].updates, Before(store, n));
      assert forall i | 0 <= i < |m[n].updates| :: PlacedIn(c, m[n].updates, m[n].updates[i].0, m[n].updates[i].1);
    }
  }

  /** The rollback touches the transaction's intents and no others. */
  lemma SameIntents(ts: seq<TxIntent>, m: map<string, TxIntent>, rs: seq<TxIntent>, m': map<string, TxIntent>)
    requires Orders(ts, m) && Orders(rs, m') && m.Keys == m'.Keys
    ensures SameNames(ts, rs)
  {
  }

  lemma {:induction false} AllRestored(c: Ctx, store: Store, tree: Entry, ts: seq<TxIntent>, m: map<string, TxIntent>,
                                       root: Entry, rs: seq<TxIntent>, recorded: map<string, TxIntent>)
    requires StoreOk(c, store) && Orders(ts, m) && Orders(rs, recorded) && RecordsAll(recorded, m.Keys, store)
    requires TreeOk(root, c) && ApplyIntents(root, c, rs).Some? && forall n | n in m :: IsIntent(n)
    ensures forall o :: Restored(store, StoreAfter(StoreAfter(store, tree, ts), ApplyIntents(root, c, rs).value, rs), o)
  {
    SameIntents(ts, m, rs, recorded);
    forall o ensures Restored(store, StoreAfter(StoreAfter(store, tree, ts), ApplyIntents(root, c, rs).value, rs), o) {
      RollbackInverse(c, store, tree, ts, root, rs, o);
    }
  }

  /** A transaction and then its rollback, each loading the persisted intents it finds into the
      tree of running at its time, and exporting what it writes: if both are carried out, the
      persisted intents stand for the old leaves and priorities of every intent again. */
  method SetAndRollback(d: Datastore, c: Ctx, tx: Transaction, running: Entry, env: Env, running': Entry, env': Env) returns (ok: bool)
    requires tx.Valid() && tx.oldIntents == map[] && Submittable(c, tx.newIntents)
    requires d.Valid(c) && BaseOk(c, running) && BaseOk(c, running')
    modifies d, tx
    ensures d.Valid(c)
    ensures ok ==> forall o :: Restored(old(d.store), d.store, o)
    ensures AllKnown(c, tx.newIntents) && Willing(env) && Willing(env') ==> ok
  {
    ghost var store := d.store;
    var done, root, tree, ts, written := d.TransactionSet(running, c, tx, env);
    if !done.Done? {
      return false;
    }
    assert ts[..written] == ts;
    ok := Undo(d, c, tx, store, tree, ts, running', env');
  }

  /** The rollback of a completed transaction. */
  method Undo(d: Datastore, c: Ctx, tx: Transaction, ghost store: Store, ghost tree: Entry, ghost ts: seq<TxIntent>, running: Entry, env: Env)
    returns (ok: bool)
    requires d.Valid(c) && tx.Valid() && BaseOk(c, running) && Submittable(c, tx.newIntents) && Orders(ts, tx.newIntents)
    requires StoreOk(c, store) && StorePlaced(c, store) && d.store == StoreAfter(store, tree, ts)
    requires RecordsAll(tx.oldIntents, tx.newIntents.Keys, store)
    modifies d
    ensures d.Valid(c)
    ensures ok ==> forall o :: Restored(store, d.store, o)
    ensures Willing(env) ==> ok
  {
    var rollback := tx.GetRollbackTransaction();
    RecordsSubmittable(c, tx.oldIntents, tx.newIntents.Keys, store);
    var undone, root, after, rs, written := d.TransactionSet(running, c, rollback, env);
    ok := undone.Done?;
    if ok {
      assert rs[..written] == rs;
      AllRestored(c, store, tree, ts, tx.newIntents, root, rs, rollback.newIntents);
    }
  }
}
