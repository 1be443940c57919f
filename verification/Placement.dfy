/** Where the content of intents sits: what a transaction leaves in the tree can be exported. */
module Placement {
  import opened Base
  import opened Tree
  import opened Paths
  import opened Growth
  import opened Insertion
  import opened Transactions
  import opened Shapes
  import X = Export
  import Southbound
  import P = Persist

  predicate PresencePlace(c: Ctx, p: Path) {
    && CtxAt(c, p).Some?
    && var d := CtxAt(c, p).value;
       d.level == 0 && d.schema.Container? && d.schema.presence && KeyNames(d) == []
  }

  /** An update at a leaf, or at a presence container below which there is none. */
  predicate PlacedIn(c: Ctx, us: seq<(Path, Value)>, p: Path, v: Value) {
    LeafPlace(c, p) || (PresencePlace(c, p) && v == P.EMPTY && forall j | 0 <= j < |us| :: !(p < us[j].0))
  }

  predicate Placed(c: Ctx, us: seq<(Path, Value)>) {
    forall i | 0 <= i < |us| :: PlacedIn(c, us, us[i].0, us[i].1)
  }

  /** The same for a map of leaves. */
  ghost predicate PlacedLeaves(c: Ctx, m: map<Path, Value>) {
    forall p | p in m ::
      LeafPlace(c, p) || (PresencePlace(c, p) && m[p] == P.EMPTY && forall q | q in m :: !(p < q))
  }

  lemma ListedPlaced(c: Ctx, us: seq<(Path, Value)>, m: map<Path, Value>)
    requires PlacedLeaves(c, m) && Lists(us, m)
    ensures Placed(c, us)
  {
    forall i | 0 <= i < |us| ensures PlacedIn(c, us, us[i].0, us[i].1) {
      assert us[i].0 in m;
    }
  }

  // ---------------------------------------------------------------- where content comes from

  /** Every value in an intent's content is an update's, or a key leaf on the way to one. */
  lemma {:induction false} ContentFrom(c: Ctx, us: seq<(Path, Value)>, q: Path) returns (i: nat)
    requires ContentOf(c, us, q).Some?
    ensures i < |us|
    ensures (us[i].0 == q && ContentOf(c, us, q) == Some(us[i].1)) || KeyLeafAt(c, [], us[i].0, q).Some?
    decreases |us|
  {
    var u := us[|us| - 1];
    if q == u.0 || KeyLeafAt(c, [], u.0, q).Some? {
      i := |us| - 1;
    } else {
      i := ContentFrom(c, us[..|us| - 1], q);
    }
  }

  /** A key leaf sits in a list element on the way to p. */
  lemma {:induction false} KeyLeafNear(c: Ctx, names: seq<string>, p: Path, q: Path)
    requires KeyLeafAt(c, names, p, q).Some?
    ensures q != [] && Up(q) <= p && CtxAt(c, Up(q)).Some? && CtxAt(c, Up(q)).value.level > 0
    decreases p
  {
    if !(|q| == 1 && ElementKey(c, names, q[0]).Some?) {
      var d := ChildCtx(c, p[0]).value;
      KeyLeafNear(d, Below(d, names, p[0]), p[1..], q[1..]);
      assert Up(q) == [q[0]] + Up(q[1..]);
    }
  }

  lemma ContentBelow(c: Ctx, us: seq<(Path, Value)>, q: Path, r: Path) returns (j: nat)
    requires PresencePlace(c, q) && q < r && ContentOf(c, us, r).Some?
    ensures j < |us| && q < us[j].0
  {
    j := ContentFrom(c, us, r);
    if us[j].0 != r {
      KeyLeafNear(c, [], us[j].0, r);
      assert q <= Up(r);
      assert q != Up(r);
    }
  }

  lemma NothingBelowPresence(c: Ctx, us: seq<(Path, Value)>, q: Path, r: Path)
    requires CtxOk(c) && Placed(c, us) && ContentOf(c, us, q).Some? && PresencePlace(c, q) && q < r
    ensures ContentOf(c, us, r).None?
  {
    var i := PresenceFrom(c, us, q);
    assert PlacedIn(c, us, us[i].0, us[i].1);
    if ContentOf(c, us, r).Some? {
      var j := ContentBelow(c, us, q, r);
    }
  }

  /** The value of a presence container is an update's. */
  lemma PresenceFrom(c: Ctx, us: seq<(Path, Value)>, q: Path) returns (i: nat)
    requires CtxOk(c) && ContentOf(c, us, q).Some? && PresencePlace(c, q)
    ensures i < |us| && us[i].0 == q && ContentOf(c, us, q) == Some(us[i].1)
  {
    i := ContentFrom(c, us, q);
    if KeyLeafAt(c, [], us[i].0, q).Some? {
      KeyLeafIsLeaf(c, [], us[i].0, q);
    }
  }

  lemma ContentPlace(c: Ctx, us: seq<(Path, Value)>, q: Path)
    requires CtxOk(c) && Placed(c, us) && ContentOf(c, us, q).Some?
    ensures LeafPlace(c, q) || (PresencePlace(c, q) && ContentOf(c, us, q) == Some(P.EMPTY))
  {
    var i := ContentFrom(c, us, q);
    if KeyLeafAt(c, [], us[i].0, q).Some? {
      KeyLeafIsLeaf(c, [], us[i].0, q);
    } else {
      assert PlacedIn(c, us, us[i].0, us[i].1);
    }
  }

  // ---------------------------------------------------------------- the tree after a transaction

  lemma {:induction false} MarkAllTyped(e: Entry, c: Ctx, owner: string, orphan: bool)
    requires X.Typed(e, c)
    ensures X.Typed(MarkAll(e, owner, orphan), c)
    decreases e
  {
    forall k | k in e.children ensures X.Typed(MarkAll(e.children[k], owner, orphan), ChildCtx(c, k).value) {
      MarkAllTyped(e.children[k], ChildCtx(c, k).value, owner, orphan);
    }
  }

  lemma {:induction false} AddAllTyped(e: Entry, c: Ctx, us: seq<Update>)
    requires X.Typed(e, c) && CtxOk(c) && AddAll(e, c, us).Some?
    ensures X.Typed(AddAll(e, c, us).value, c)
    decreases |us|
  {
    if us != [] {
      var front, u := us[..|us| - 1], us[|us| - 1];
      AddAllTyped(e, c, front);
      AddUpdateTyped(AddAll(e, c, front).value, c, [], u.path, u.le);
    }
  }

  lemma {:induction false} ApplyIntentsTyped(e: Entry, c: Ctx, ts: seq<TxIntent>)
    requires X.Typed(e, c) && CtxOk(c) && ApplyIntents(e, c, ts).Some?
    ensures X.Typed(ApplyIntents(e, c, ts).value, c)
    decreases |ts|
  {
    if ts != [] {
      var front, t := ts[..|ts| - 1], ts[|ts| - 1];
      ApplyIntentsTyped(e, c, front);
      var m := ApplyIntents(e, c, front).value;
      MarkAllTyped(m, c, t.name, t.orphan);
      if !t.delete {
        AddAllTyped(MarkAll(m, t.name, t.orphan), c, ToUpdates(t));
      }
    }
  }

  lemma TransactionPlaced(e: Entry, c: Ctx, ts: seq<TxIntent>, i: nat)
    requires TreeOk(e, c) && CtxOk(c) && Runnable(c, ts) && ApplyIntents(e, c, ts).Some? && i < |ts| && Placed(c, ts[i].updates)
    ensures X.Shaped(ApplyIntents(e, c, ts).value, c, ts[i].name)
    ensures PlacedLeaves(c, Leaves(ApplyIntents(e, c, ts).value, ts[i].name))
  {
    var e', t := ApplyIntents(e, c, ts).value, ts[i];
    forall q ensures LiveAt(e', q, t.name) == if t.delete then None else ContentOf(c, t.updates, q) {
      ApplyIntentsOwn(e, c, ts, q, i);
    }
    forall p | LiveAt(e', p, t.name).Some? ensures X.Holds(e', c, p, t.name) {
      ContentPlace(c, t.updates, p);
      if !LeafPlace(c, p) {
        forall q | p < q ensures LiveAt(e', q, t.name).None? {
          NothingBelowPresence(c, t.updates, p, q);
        }
      }
    }
    ShapedPlaced(e', c, t.name);
  }

  lemma ShapedPlaced(e: Entry, c: Ctx, o: string)
    requires X.Shaped(e, c, o)
    ensures PlacedLeaves(c, Leaves(e, o))
  {
    var m := Leaves(e, o);
    forall p ensures p in m <==> LiveAt(e, p, o).Some? {
      LeavesAt(e, o, p);
    }
    forall p | p in m ensures LeafPlace(c, p) || (PresencePlace(c, p) && m[p] == P.EMPTY && forall q | q in m :: !(p < q)) {
      LeavesAt(e, o, p);
      assert X.Holds(e, c, p, o);
    }
  }

  /** After a transaction every intent it set can be exported. */
  lemma TransactionExportable(e: Entry, c: Ctx, ts: seq<TxIntent>, i: nat)
    requires TreeOk(e, c) && X.Typed(e, c) && CtxOk(c) && c.level == 0 && KeyNames(c) == []
    requires Runnable(c, ts) && ApplyIntents(e, c, ts).Some? && i < |ts| && Placed(c, ts[i].updates)
    ensures X.RootOk(ApplyIntents(e, c, ts).value, c, ts[i].name)
  {
    var e', o := ApplyIntents(e, c, ts).value, ts[i].name;
    ApplyIntentsTyped(e, c, ts);
    TransactionPlaced(e, c, ts, i);
    SavedClosed(c, e, ts, i);
    forall p, q | LiveAt(e', p, o).Some? && KeyLeafAt(c, [], p, q).Some? ensures LiveAt(e', q, o) == KeyLeafAt(c, [], p, q) {
      LeavesAt(e', o, p);
      LeavesAt(e', o, q);
      assert p in Leaves(e', o);
    }
  }

  // ---------------------------------------------------------------- the loaded tree

  /** A tree loaded from a sound store is fit for a transaction. */
  lemma LoadedOk(e: Entry, c: Ctx, store: Store)
    requires OwnersUnique(e) && Loaded(e, store) && StoreOk(c, store) && Matching(e, c, [], RUNNING)
    ensures TreeOk(e, c)
  {
    forall o | o != DEFAULT ensures Matching(e, c, [], o) {
      if o != RUNNING {
        forall q | VariantAt(e, q, o).Some? && KeyLeafAt(c, [], q, q).Some?
          ensures VariantAt(e, q, o).value.value == KeyLeafAt(c, [], q, q).value
        {
          assert q in store[o].leaves && Southbound.Get(store[o].leaves, q) == KeyLeafAt(c, [], q, q);
        }
      }
    }
  }

  /** Every intent of the store has its content where it can be exported. */
  ghost predicate StorePlaced(c: Ctx, store: Store) {
    forall o | o in store :: PlacedLeaves(c, store[o].leaves)
  }

  lemma StoreStaysPlaced(c: Ctx, store: Store, e: Entry, ts: seq<TxIntent>, n: nat)
    requires StorePlaced(c, store) && TreeOk(e, c) && CtxOk(c) && Runnable(c, ts) && ApplyIntents(e, c, ts).Some? && n <= |ts|
    requires forall i | 0 <= i < |ts| :: Placed(c, ts[i].updates)
    ensures StorePlaced(c, StoreAfter(store, ApplyIntents(e, c, ts).value, ts[..n]))
  {
    var e' := ApplyIntents(e, c, ts).value;
    var after := StoreAfter(store, e', ts[..n]);
    forall o | o in after ensures PlacedLeaves(c, after[o].leaves) {
      if Named(ts[..n], o) {
        var i: nat :| i < n && ts[..n][i].name == o;
        StoreAfterOwn(store, e', ts[..n], i);
        TransactionPlaced(e, c, ts, i);
      } else {
        StoreAfterOthers(store, e', ts[..n], o);
      }
    }
  }
}
