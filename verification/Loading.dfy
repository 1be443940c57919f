/** Loading the intended store into a tree (LoadAllButRunningIntents of
    pkg/datastore/transaction_rpc.go): persisted intents, imported one after the other. */
module Loading {
  import opened Base
  import opened Tree
  import opened Paths
  import opened Growth
  import P = Persist
  import T = Transactions
  import X = Export
  import Southbound
  import Shapes
  import R = Ranks

  /** The persisted root stands for these leaves. */
  ghost predicate StandsFor(c: Ctx, root: Option<P.Element>, leaves: map<Path, Value>) {
    match root
    case None => leaves == map[]
    case Some(el) => P.Importable(c, el) && forall q :: P.Content(c, el, q) == Southbound.Get(leaves, q)
  }

  /** What an export persists stands for the leaves the store keeps for the owner. */
  lemma ExportStandsForLeaves(e: Entry, c: Ctx, i: X.Intent)
    requires X.Persists(e, c, i.name, i.root)
    ensures StandsFor(c, i.root, T.Leaves(e, i.name))
  {
    forall q ensures Southbound.Get(T.Leaves(e, i.name), q) == LiveAt(e, q, i.name) {
      T.LeavesAt(e, i.name, q);
    }
    if i.root.None? {
      Southbound.SameMaps(T.Leaves(e, i.name), map[]);
    }
  }

  function Stored(i: X.Intent, leaves: map<Path, Value>): T.Intent {
    T.Intent(i.priority, leaves, i.nonRevertive, i.orphan)
  }

  function After(e: Entry, c: Ctx, i: X.Intent): Option<Entry>
    requires c.level == 0
  {
    if i.root.None? then Some(e) else P.Imported(e, c, i.root.value, X.Imports(i, false))
  }

  /** Importing one more intent loads that intent and disturbs none loaded before. */
  lemma ImportLoads(e: Entry, c: Ctx, store: T.Store, i: X.Intent, leaves: map<Path, Value>)
    requires c.level == 0 && OwnersUnique(e) && T.Loaded(e, store) && i.name !in store && IsIntent(i.name)
    requires StandsFor(c, i.root, leaves)
    ensures After(e, c, i).Some? && OwnersUnique(After(e, c, i).value)
    ensures T.Loaded(After(e, c, i).value, store[i.name := Stored(i, leaves)])
  {
    if i.root.Some? {
      var el, le := i.root.value, X.Imports(i, false);
      P.ImportSucceeds(e, c, el, le);
      P.ImportedObserved(e, c, el, le, [], i.name);
      LoadedAfter(e, c, store, i, leaves, P.Imported(e, c, el, le).value);
    } else {
      assert forall q :: VariantAt(e, q, i.name).None?;
    }
  }

  lemma LoadedAfter(e: Entry, c: Ctx, store: T.Store, i: X.Intent, leaves: map<Path, Value>, e': Entry)
    requires c.level == 0 && OwnersUnique(e) && T.Loaded(e, store) && i.name !in store && IsIntent(i.name)
    requires i.root.Some? && StandsFor(c, i.root, leaves) && P.Imported(e, c, i.root.value, X.Imports(i, false)) == Some(e')
    ensures T.Loaded(e', store[i.name := Stored(i, leaves)])
  {
    var after := store[i.name := Stored(i, leaves)];
    forall q, o | IsIntent(o)
      ensures match VariantAt(e', q, o)
              case None => !(o in after && q in after[o].leaves)
              case Some(l) => o in after && q in after[o].leaves && l.value == after[o].leaves[q] && l.priority == after[o].priority && !l.delete && !l.onlyIntended && !l.isNew
    {
      P.ImportedObserved(e, c, i.root.value, X.Imports(i, false), q, o);
      assert P.Content(c, i.root.value, q) == Southbound.Get(leaves, q);
      if o == i.name {
        assert VariantAt(e, q, o).None?;
      }
    }
  }

  /** The store a list of persisted intents amounts to. */
  function StoreOf(xs: seq<X.Intent>, leaves: seq<map<Path, Value>>): T.Store
    requires |xs| == |leaves|
  {
    if xs == [] then map[]
    else
      var n := |xs| - 1;
      StoreOf(xs[..n], leaves[..n])[xs[n].name := Stored(xs[n], leaves[n])]
  }

  lemma {:induction false} StoreOfNames(xs: seq<X.Intent>, leaves: seq<map<Path, Value>>, o: string)
    requires |xs| == |leaves|
    ensures o in StoreOf(xs, leaves) <==> exists j | 0 <= j < |xs| :: xs[j].name == o
  {
    if xs != [] {
      var n := |xs| - 1;
      StoreOfNames(xs[..n], leaves[..n], o);
      assert forall j | 0 <= j < n :: xs[..n][j] == xs[j];
    }
  }

  /** Importing an intent keeps the tree in shape and leaves running alone. */
  lemma ImportKeeps(e: Entry, c: Ctx, i: X.Intent)
    requires c.level == 0 && OwnersUnique(e) && X.Typed(e, c) && Shapes.CtxOk(c) && IsIntent(i.name) && After(e, c, i).Some?
    ensures X.Typed(After(e, c, i).value, c)
    ensures forall q :: VariantAt(After(e, c, i).value, q, RUNNING) == VariantAt(e, q, RUNNING)
  {
    if i.root.Some? {
      Shapes.ImportedTyped(e, c, i.root.value, X.Imports(i, false));
      forall q ensures VariantAt(After(e, c, i).value, q, RUNNING) == VariantAt(e, q, RUNNING) {
        P.ImportedObserved(e, c, i.root.value, X.Imports(i, false), q, RUNNING);
      }
    }
  }

  /** Every intent ranks before running. */
  predicate Ranked(xs: seq<X.Intent>) {
    forall j | 0 <= j < |xs| :: xs[j].priority < RUNNING_PRIO
  }

  lemma ImportFine(e: Entry, c: Ctx, w: R.Care, i: X.Intent)
    requires c.level == 0 && R.Fine(e, c, w) && Shapes.CtxOk(c) && IsIntent(i.name) && i.priority < RUNNING_PRIO && After(e, c, i).Some?
    ensures R.Fine(After(e, c, i).value, c, w)
  {
    if i.root.Some? {
      R.ImportedFine(e, c, w, i.root.value, X.Imports(i, false));
    }
  }

  predicate DistinctIntents(xs: seq<X.Intent>) {
    forall j, k | 0 <= j < k < |xs| :: xs[j].name != xs[k].name
  }

  lemma {:induction false} StoreOfAt(xs: seq<X.Intent>, leaves: seq<map<Path, Value>>, j: nat)
    requires |xs| == |leaves| && DistinctIntents(xs) && j < |xs|
    ensures xs[j].name in StoreOf(xs, leaves) && StoreOf(xs, leaves)[xs[j].name] == Stored(xs[j], leaves[j])
    decreases |xs|
  {
    var n := |xs| - 1;
    if j < n {
      StoreOfAt(xs[..n], leaves[..n], j);
      assert xs[j].name != xs[n].name;
    }
  }

  /** A list of the intents of a store amounts to that store. */
  lemma StoreOfIs(xs: seq<X.Intent>, leaves: seq<map<Path, Value>>, store: T.Store)
    requires |xs| == |leaves| && DistinctIntents(xs)
    requires forall j | 0 <= j < |xs| :: xs[j].name in store && store[xs[j].name] == Stored(xs[j], leaves[j])
    requires forall n | n in store :: exists j | 0 <= j < |xs| :: xs[j].name == n
    ensures StoreOf(xs, leaves) == store
  {
    var s := StoreOf(xs, leaves);
    forall n ensures n in s <==> n in store ensures n in s ==> n in store && s[n] == store[n] {
      StoreOfNames(xs, leaves, n);
      if n in s {
        var j: nat :| j < |xs| && xs[j].name == n;
        StoreOfAt(xs, leaves, j);
      }
    }
  }

  /** Loads all persisted intents, in the order the store hands them out: none fails, and the
      tree then holds exactly the store, in shape and with running as it was. */
  method LoadAll(e: Entry, c: Ctx, xs: seq<X.Intent>, ghost leaves: seq<map<Path, Value>>) returns (r: Entry)
    requires c.level == 0 && Shapes.CtxOk(c) && |xs| == |leaves| && OwnersUnique(e) && X.Typed(e, c) && T.Loaded(e, map[])
    requires forall j | 0 <= j < |xs| :: IsIntent(xs[j].name) && StandsFor(c, xs[j].root, leaves[j])
    requires DistinctIntents(xs)
    ensures OwnersUnique(r) && X.Typed(r, c) && T.Loaded(r, StoreOf(xs, leaves))
    ensures forall q :: VariantAt(r, q, RUNNING) == VariantAt(e, q, RUNNING)
    ensures Ranked(xs) ==> forall w | R.Fine(e, c, w) :: R.Fine(r, c, w)
  {
    r := e;
    for n := 0 to |xs|
      invariant Ranked(xs) ==> forall w | R.Fine(e, c, w) :: R.Fine(r, c, w)
      invariant OwnersUnique(r) && X.Typed(r, c) && T.Loaded(r, StoreOf(xs[..n], leaves[..n]))
      invariant forall q :: VariantAt(r, q, RUNNING) == VariantAt(e, q, RUNNING)
    {
      StoreOfNames(xs[..n], leaves[..n], xs[n].name);
      ImportLoads(r, c, StoreOf(xs[..n], leaves[..n]), xs[n], leaves[n]);
      ImportKeeps(r, c, xs[n]);
      if Ranked(xs) {
        forall w | R.Fine(e, c, w) ensures R.Fine(After(r, c, xs[n]).value, c, w) {
          ImportFine(r, c, w, xs[n]);
        }
      }
      assert xs[..n + 1][..n] == xs[..n] && leaves[..n + 1][..n] == leaves[..n];
      var next := X.ImportIntent(r, c, xs[n], false);
      r := next.value;
    }
    assert xs[..|xs|] == xs && leaves[..|xs|] == leaves;
  }
}
