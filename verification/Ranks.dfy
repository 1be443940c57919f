/** Everything that changes a tree keeps it well formed: entries sit where the schema says, owners are
    unique, intents rank before running and running before defaults. */
module Ranks {
  import opened Base
  import opened Tree
  import opened Paths
  import opened Growth
  import opened Insertion
  import opened Shapes
  import X = Export
  import P = Persist
  import L = Leaves
  import S = LeafStore
  import Southbound
  import Aggregation
  import T = Transactions
  import B = Branches
  import Y = Sync

  /** What is asked of a tree besides: running carries no flags, values sit where they belong, there
      are no choices. */
  datatype Care = Care(calm: bool, sited: bool, free: bool)

  predicate VariantOk(l: L.LeafEntry, calm: bool) {
    && L.PrioOk(l) && !l.explicitDelete
    && (l.owner == RUNNING ==> !l.onlyIntended && (calm ==> !l.isNew && !l.delete && !l.isUpdated))
    && (l.owner == DEFAULT ==> !l.delete && !l.onlyIntended)
  }

  predicate LesOk(les: seq<L.LeafEntry>, calm: bool) {
    L.UniqueOwners(les) && forall i | 0 <= i < |les| :: VariantOk(les[i], calm)
  }

  /** Values belong in leaves, leaf-lists and presence containers. */
  predicate NoValueHere(c: Ctx) {
    c.level > 0 || (c.schema.Container? && !(c.schema.presence && KeyNames(c) == []))
  }

  ghost predicate NodeFine(e: Entry, c: Ctx, w: Care) {
    && e.schema == (if c.level == 0 then Some(c.schema) else None)
    && LesOk(e.les, w.calm) && (w.sited && NoValueHere(c) ==> e.les == []) && (w.free ==> e.choices == map[])
  }

  ghost predicate Fine(e: Entry, c: Ctx, w: Care) {
    && NodeFine(e, c, w)
    && forall k | k in e.children :: ChildCtx(c, k).Some? && Fine(e.children[k], ChildCtx(c, k).value, w)
  }

  // ---------------------------------------------------------------- what a fine tree is good for

  lemma {:induction false} FineLeaf(les: seq<L.LeafEntry>)
    requires LesOk(les, true)
    ensures L.WellFormed(les) && forall i | 0 <= i < |les| :: !les[i].explicitDelete
  {
    forall i | 0 <= i < |les| ensures L.PrioOk(les[i]) && L.FlagsOk(les[i]) && !les[i].explicitDelete {
      assert VariantOk(les[i], true);
    }
  }

  lemma {:induction false} FineIsWellFormed(e: Entry, c: Ctx, w: Care)
    requires Fine(e, c, w)
    ensures X.Typed(e, c) && OwnersUnique(e)
    ensures w.calm ==> LeavesOk(e)
    ensures w.free ==> Southbound.ChoiceFree(e)
    ensures w.sited ==> Southbound.ListsHoldNoValue(e) && Aggregation.KeyLevelsHoldNoValue(e)
    decreases e
  {
    if w.calm {
      FineLeaf(e.les);
    }
    AlphabeticalSorts(SchemaKeys(c.schema));
    assert Keys(e) != [] ==> Keys(e)[0] in KeyNames(c);
    forall k | k in e.children
      ensures X.Typed(e.children[k], ChildCtx(c, k).value) && OwnersUnique(e.children[k]) && (w.calm ==> LeavesOk(e.children[k]))
      ensures w.free ==> Southbound.ChoiceFree(e.children[k])
      ensures w.sited ==> Southbound.ListsHoldNoValue(e.children[k]) && Aggregation.KeyLevelsHoldNoValue(e.children[k])
    {
      FineIsWellFormed(e.children[k], ChildCtx(c, k).value, w);
    }
  }

  lemma {:induction false} ChildFine(e: Entry, c: Ctx, w: Care, k: string, n: Entry)
    requires Fine(e, c, w) && ChildCtx(c, k).Some? && Fine(n, ChildCtx(c, k).value, w)
    ensures Fine(e.(children := e.children[k := n]), c, w)
  {
  }

  lemma {:induction false} LesFine(e: Entry, c: Ctx, w: Care, les: seq<L.LeafEntry>)
    requires Fine(e, c, w) && LesOk(les, w.calm) && (w.sited && NoValueHere(c) ==> les == [])
    ensures Fine(e.(les := les), c, w)
  {
    assert e.(les := les).children == e.children;
  }

  // ---------------------------------------------------------------- changes to one leaf

  /** A variant that may be added: an intent's, or running's while a sync is under way. */
  predicate Addable(le: L.LeafEntry, calm: bool) {
    VariantOk(le, calm) && (calm ==> le.owner != RUNNING)
  }

  lemma {:induction false} AddedOk(les: seq<L.LeafEntry>, le: L.LeafEntry, calm: bool)
    requires LesOk(les, calm) && Addable(le, calm)
    ensures LesOk(S.Added(les, le), calm)
  {
    S.AddedPerOwner(les, le, le.owner);
    var les' := S.Added(les, le);
    forall i | 0 <= i < |les'| ensures VariantOk(les'[i], calm) {
      if i < |les| {
        assert VariantOk(les[i], calm);
      }
    }
  }

  lemma {:induction false} MarkedOk(les: seq<L.LeafEntry>, owner: string, orphan: bool, calm: bool)
    requires LesOk(les, calm) && owner != DEFAULT && (owner == RUNNING ==> !calm && !orphan)
    ensures LesOk(S.Marked(les, owner, orphan), calm)
  {
    S.MarkedPerOwner(les, owner, orphan, owner);
    var les' := S.Marked(les, owner, orphan);
    forall i | 0 <= i < |les'| ensures VariantOk(les'[i], calm) {
      assert VariantOk(les[i], calm);
    }
  }

  lemma {:induction false} UndeletedOk(n: Entry, owner: string, calm: bool)
    requires LesOk(n.les, calm)
    ensures LesOk(Undeleted(n, owner).les, calm)
  {
    UndeletedPerOwner(n, owner, owner);
    var les' := Undeleted(n, owner).les;
    forall i | 0 <= i < |les'| ensures VariantOk(les'[i], calm) {
      assert VariantOk(n.les[i], calm);
    }
  }

  lemma {:induction false} WithoutOk(les: seq<L.LeafEntry>, i: nat, calm: bool)
    requires LesOk(les, calm) && i < |les|
    ensures LesOk(S.Without(les, i), calm)
  {
    S.WithoutPerOwner(les, i, les[i].owner);
    var les' := S.Without(les, i);
    forall j | 0 <= j < |les'| ensures VariantOk(les'[j], calm) {
      assert les'[j] == les[if j < i then j else j + 1];
    }
  }

  /** Resetting all flags calms running. */
  lemma {:induction false} ResetOk(les: seq<L.LeafEntry>, calm: bool)
    requires LesOk(les, calm)
    ensures LesOk(S.Reset(les, true, true, true), true)
  {
    var les' := S.Reset(les, true, true, true);
    assert forall i | 0 <= i < |les| :: les'[i].owner == les[i].owner;
    forall i | 0 <= i < |les'| ensures VariantOk(les'[i], true) {
      assert VariantOk(les[i], calm);
    }
  }

  // ---------------------------------------------------------------- insertion

  lemma {:induction false} NewEntryFine(c: Ctx, w: Care)
    requires CtxOk(c)
    ensures Fine(NewEntry(c), c, w)
  {
    var n := NewEntry(c);
    forall k | k in n.children ensures ChildCtx(c, k).Some? && Fine(n.children[k], ChildCtx(c, k).value, w) {
      var d := ChildCtx(c, k).value;
      assert n.children[k] == DefaultLeaf(c.schema.defaults[k]) && d == Ctx(Field(c.schema.defaults[k].typ), 0);
      assert KeyNames(d) == [];
    }
  }

  lemma {:induction false} KeyLeafFine(child: Entry, d: Ctx, w: Care, v: Value, le: L.LeafEntry)
    requires Fine(child, d, w) && d.schema.Field? && d.level == 0 && Addable(le, w.calm)
    ensures Fine(KeyLeafEnsured(child, v, le), d, w)
  {
    var n := KeyLeafEnsured(child, v, le);
    UndeletedOk(child, le.owner, w.calm);
    AddedOk(child.les, le.(value := v), w.calm);
    LesFine(child, d, w, n.les);
    assert n == child.(les := n.les);
  }

  lemma {:induction false} KeyEnsuredFine(e: Entry, c: Ctx, w: Care, k: string, v: Value, le: L.LeafEntry)
    requires Fine(e, c, w) && CtxOk(c) && AtContent(c) && k in c.schema.children && c.schema.children[k] == Field(v.typ)
    requires Addable(le, w.calm)
    ensures Fine(KeyEnsured(e, k, v, le), c, w)
  {
    var d := Ctx(Field(v.typ), 0);
    assert ChildCtx(c, k) == Some(d);
    NewEntryFine(d, w);
    var child := if k in e.children then e.children[k] else NewEntry(d);
    KeyLeafFine(child, d, w, v, le);
    ChildFine(e, c, w, k, KeyLeafEnsured(child, v, le));
    assert KeyEnsured(e, k, v, le) == e.(children := e.children[k := KeyLeafEnsured(child, v, le)]);
  }

  lemma {:induction false} KeysEnsuredFine(e: Entry, c: Ctx, w: Care, names: seq<string>, n: nat, le: L.LeafEntry)
    requires Fine(e, c, w) && CtxOk(c) && IsElement(c, names) && n <= c.level && Addable(le, w.calm)
    ensures Fine(KeysEnsured(e, KeyNames(c)[..n], Insertion.KeyValues(c, names)[..n], le), c, w)
    decreases n
  {
    if n > 0 {
      var keys, vals := KeyNames(c), Insertion.KeyValues(c, names);
      KeyIsField(c, n - 1, names[n - 1]);
      KeyEnsuredFine(e, c, w, keys[n - 1], vals[n - 1], le);
      KeysEnsuredFine(KeyEnsured(e, keys[n - 1], vals[n - 1], le), c, w, names, n - 1, le);
      assert keys[..n][..n - 1] == keys[..n - 1] && vals[..n][..n - 1] == vals[..n - 1];
    }
  }

  lemma {:induction false} PreparedFine(e: Entry, c: Ctx, w: Care, names: seq<string>, le: L.LeafEntry)
    requires Fine(e, c, w) && CtxOk(c) && Addable(le, w.calm)
    ensures Fine(Prepared(e, c, names, le), c, w)
  {
    if IsElement(c, names) {
      KeysEnsuredFine(e, c, w, names, c.level, le);
      assert KeyNames(c)[..c.level] == KeyNames(c) && Insertion.KeyValues(c, names)[..c.level] == Insertion.KeyValues(c, names);
    }
  }

  /** An insertion keeps a tree fine. */
  lemma {:induction false} AddUpdateFine(e: Entry, c: Ctx, w: Care, names: seq<string>, p: Path, le: L.LeafEntry)
    requires Fine(e, c, w) && CtxOk(c) && Addable(le, w.calm) && AddUpdate(e, c, names, p, le).Some?
    requires w.sited ==> CtxAt(c, p).Some? && !NoValueHere(CtxAt(c, p).value)
    ensures Fine(AddUpdate(e, c, names, p, le).value, c, w)
    decreases p
  {
    var e1 := Prepared(e, c, names, le);
    PreparedFine(e, c, w, names, le);
    if p == [] {
      AddedOk(e1.les, le, w.calm);
      LesFine(e1, c, w, S.Added(e1.les, le));
    } else {
      var d := ChildCtx(c, p[0]).value;
      CtxBelow(c, p[0], d);
      NewEntryFine(d, w);
      AddUpdateFine(ChildOrNew(e1, d, p[0]), d, w, Below(d, names, p[0]), p[1..], le);
      ChildFine(e1, c, w, p[0], AddUpdate(ChildOrNew(e1, d, p[0]), d, Below(d, names, p[0]), p[1..], le).value);
    }
  }

  lemma {:induction false} AddAllFine(e: Entry, c: Ctx, w: Care, us: seq<Update>)
    requires Fine(e, c, w) && CtxOk(c) && AddAll(e, c, us).Some?
    requires forall i | 0 <= i < |us| :: Addable(us[i].le, w.calm) && (w.sited ==> CtxAt(c, us[i].path).Some? && !NoValueHere(CtxAt(c, us[i].path).value))
    ensures Fine(AddAll(e, c, us).value, c, w)
    decreases |us|
  {
    if us != [] {
      var front, u := us[..|us| - 1], us[|us| - 1];
      AddAllFine(e, c, w, front);
      AddUpdateFine(AddAll(e, c, front).value, c, w, [], u.path, u.le);
    }
  }

  lemma {:induction false} MarkAllFine(e: Entry, c: Ctx, w: Care, owner: string, orphan: bool)
    requires Fine(e, c, w) && owner != DEFAULT && (owner == RUNNING ==> !w.calm && !orphan)
    ensures Fine(T.MarkAll(e, owner, orphan), c, w)
    decreases e
  {
    MarkedOk(e.les, owner, orphan, w.calm);
    forall k | k in e.children ensures Fine(T.MarkAll(e.children[k], owner, orphan), ChildCtx(c, k).value, w) {
      MarkAllFine(e.children[k], ChildCtx(c, k).value, w, owner, orphan);
    }
  }

  // ---------------------------------------------------------------- import

  lemma {:induction false} GrowFine(e: Entry, c: Ctx, w: Care, p: Path, d: Ctx, n: Entry, f: Entry -> Entry)
    requires Fine(e, c, w) && CtxOk(c) && CtxAt(c, p) == Some(d) && Fine(n, d, w) && (forall x :: f(x) == n) && Grow(e, c, p, f).Some?
    ensures Fine(Grow(e, c, p, f).value, c, w)
    decreases p
  {
    if p != [] {
      var b := ChildCtx(c, p[0]).value;
      CtxBelow(c, p[0], b);
      NewEntryFine(b, w);
      GrowFine(ChildOrNew(e, b, p[0]), b, w, p[1..], d, n, f);
      ChildFine(e, c, w, p[0], Grow(ChildOrNew(e, b, p[0]), b, p[1..], f).value);
    }
  }

  lemma {:induction false} WalkedFine(e: Entry, c: Ctx, w: Care, p: Path)
    requires Fine(e, c, w) && CtxOk(c) && CtxAt(c, p).Some?
    ensures Fine(P.Walked(e, c, p), CtxAt(c, p).value, w) && CtxOk(CtxAt(c, p).value)
    decreases p
  {
    if p != [] {
      var b := ChildCtx(c, p[0]).value;
      CtxBelow(c, p[0], b);
      NewEntryFine(b, w);
      WalkedFine(ChildOrNew(e, b, p[0]), b, w, p[1..]);
    }
  }

  lemma {:induction false} BareFine(at: Entry, c: Ctx, w: Care, names: seq<string>, le: L.LeafEntry)
    requires c.schema.Container? && |names| == |P.MissingKeys(c)| && Fine(at, P.ContentCtx(c), w) && Addable(le, w.calm)
    requires c.level == 0 || AtContent(c)
    ensures Fine(P.Bare(at, c, names, le), P.ContentCtx(c), w)
  {
    if c.level == 0 && names == [] && c.schema.presence {
      AddedOk(at.les, le.(value := P.EMPTY), w.calm);
      LesFine(at, P.ContentCtx(c), w, S.Added(at.les, le.(value := P.EMPTY)));
    }
  }

  /** An import keeps a tree fine. */
  lemma {:induction false} ImportedFine(e: Entry, c: Ctx, w: Care, el: P.Element, le: L.LeafEntry)
    requires (c.level == 0 || AtContent(c)) && Fine(e, c, w) && CtxOk(c) && Addable(le, w.calm) && P.Imported(e, c, el, le).Some?
    ensures Fine(P.Imported(e, c, el, le).value, c, w)
    decreases el, 1, 0
  {
    if !c.schema.Container? {
      assert KeyNames(c) == [];
      AddedOk(e.les, le.(value := P.TvValue(el)), w.calm);
      LesFine(e, c, w, S.Added(e.les, le.(value := P.TvValue(el))));
    } else {
      var names, inside := P.KeyTexts(c, el), P.ContentCtx(c);
      P.PassKeyLevels(c, names);
      assert CtxAt(c, names) == Some(inside);
      var at := P.Walked(e, c, names);
      WalkedFine(e, c, w, names);
      ghost var n := P.Bare(at, c, names, le);
      if el.childs != [] {
        ChildsFine(at, inside, w, el, |el.childs|, le);
        n := P.ImportedChilds(at, inside, el, |el.childs|, le).value;
      } else {
        BareFine(at, c, w, names, le);
      }
      GrowFine(e, c, w, names, inside, n, (x: Entry) => n);
      assert P.Imported(e, c, el, le) == P.Planted(e, c, names, n);
    }
  }

  lemma {:induction false} ChildsFine(e: Entry, c: Ctx, w: Care, el: P.Element, n: nat, le: L.LeafEntry)
    requires n <= |el.childs| && AtContent(c) && Fine(e, c, w) && CtxOk(c) && Addable(le, w.calm) && P.ImportedChilds(e, c, el, n, le).Some?
    ensures Fine(P.ImportedChilds(e, c, el, n, le).value, c, w)
    decreases el, 0, n
  {
    if n > 0 {
      ChildsFine(e, c, w, el, n - 1, le);
      var m, x := P.ImportedChilds(e, c, el, n - 1, le).value, el.childs[n - 1];
      var d := ChildCtx(c, x.name).value;
      CtxBelow(c, x.name, d);
      NewEntryFine(d, w);
      ImportedFine(ChildOrNew(m, d, x.name), d, w, x, le);
      ChildFine(m, c, w, x.name, P.Imported(ChildOrNew(m, d, x.name), d, x, le).value);
    }
  }

  // ---------------------------------------------------------------- removal

  lemma {:induction false} AtFine(e: Entry, c: Ctx, w: Care, p: Path)
    requires Fine(e, c, w) && At(e, p).Some?
    ensures CtxAt(c, p).Some? && Fine(At(e, p).value, CtxAt(c, p).value, w)
    decreases p
  {
    if p != [] {
      AtFine(e.children[p[0]], ChildCtx(c, p[0]).value, w, p[1..]);
    }
  }

  lemma {:induction false} ReplaceFine(e: Entry, c: Ctx, w: Care, p: Path, n: Entry)
    requires Fine(e, c, w) && At(e, p).Some? && CtxAt(c, p).Some? && Fine(n, CtxAt(c, p).value, w)
    ensures Fine(ReplaceAt(e, p, n), c, w)
    decreases p
  {
    if p != [] {
      ReplaceFine(e.children[p[0]], ChildCtx(c, p[0]).value, w, p[1..], n);
      ChildFine(e, c, w, p[0], ReplaceAt(e.children[p[0]], p[1..], n));
    }
  }

  lemma {:induction false} RemovedOk(les: seq<L.LeafEntry>, owner: string, calm: bool)
    requires LesOk(les, calm)
    ensures LesOk(S.Removed(les, owner), calm) && LesOk(S.RemovedIfDeleted(les, owner), calm)
  {
    if L.IndexOf(les, owner).Some? {
      WithoutOk(les, L.IndexOf(les, owner).value, calm);
    }
  }

  lemma {:induction false} PurgedFine(e: Entry, c: Ctx, w: Care, owner: string)
    requires Fine(e, c, w)
    ensures Fine(B.Purged(e, owner), c, w)
    decreases e
  {
    RemovedOk(e.les, owner, w.calm);
    forall k | k in e.children ensures Fine(B.Purged(e.children[k], owner), ChildCtx(c, k).value, w) {
      PurgedFine(e.children[k], ChildCtx(c, k).value, w, owner);
    }
  }

  lemma {:induction false} PrunedUpFine(e: Entry, c: Ctx, w: Care, at: Path)
    requires Fine(e, c, w)
    ensures Fine(B.PrunedUp(e, at), c, w)
    decreases |at|
  {
    if !(at == [] || At(e, at).None? || At(e, Up(at)).None? || !B.CanDeleteBranch(At(e, at).value, false)) {
      var n := B.Pruned(At(e, Up(at)).value, true);
      AtFine(e, c, w, Up(at));
      assert Fine(n, CtxAt(c, Up(at)).value, w);
      ReplaceFine(e, c, w, Up(at), n);
      PrunedUpFine(ReplaceAt(e, Up(at), n), c, w, Up(at));
    }
  }

  lemma {:induction false} BranchDeletedFine(e: Entry, c: Ctx, w: Care, p: Path, owner: string, found: bool)
    requires Fine(e, c, w)
    ensures Fine(B.BranchDeleted(e, p, owner, found), c, w)
  {
    if found && At(e, p).Some? {
      AtFine(e, c, w, p);
      PurgedFine(At(e, p).value, CtxAt(c, p).value, w, owner);
      ReplaceFine(e, c, w, p, B.Purged(At(e, p).value, owner));
      PrunedUpFine(ReplaceAt(e, p, B.Purged(At(e, p).value, owner)), c, w, p);
    }
  }

  // ---------------------------------------------------------------- the passes of a sync

  lemma {:induction false} MarkedUnderFine(e: Entry, c: Ctx, w: Care, ps: seq<Y.Lookup>)
    requires Fine(e, c, w) && !w.calm
    ensures Fine(Y.MarkedUnder(e, ps), c, w)
    decreases |ps|
  {
    if ps != [] {
      var front, l := ps[..|ps| - 1], ps[|ps| - 1];
      MarkedUnderFine(e, c, w, front);
      var m := Y.MarkedUnder(e, front);
      if l.found && At(m, l.path).Some? {
        AtFine(m, c, w, l.path);
        MarkAllFine(At(m, l.path).value, CtxAt(c, l.path).value, w, RUNNING, false);
        ReplaceFine(m, c, w, l.path, T.MarkAll(At(m, l.path).value, RUNNING, false));
      }
    }
  }

  lemma {:induction false} SweptFine(e: Entry, c: Ctx, w: Care, keepDefault: bool)
    requires Fine(e, c, w)
    ensures Fine(Y.Swept(e, keepDefault), c, w)
    decreases e
  {
    RemovedOk(e.les, RUNNING, w.calm);
    LesFine(e, c, w, S.RemovedIfDeleted(e.les, RUNNING));
    forall k | k in e.children ensures Fine(Y.Swept(e.children[k], Y.KeepsDefaults(e)), ChildCtx(c, k).value, w) {
      SweptFine(e.children[k], ChildCtx(c, k).value, w, Y.KeepsDefaults(e));
    }
  }

  lemma {:induction false} CleanedUpFine(e: Entry, c: Ctx, w: Care, zs: seq<Y.Lookup>)
    requires Fine(e, c, w)
    ensures Fine(Y.CleanedUp(e, zs), c, w)
    decreases |zs|
  {
    if zs != [] {
      CleanedUpFine(e, c, w, zs[..|zs| - 1]);
      BranchDeletedFine(Y.CleanedUp(e, zs[..|zs| - 1]), c, w, zs[|zs| - 1].path, RUNNING, zs[|zs| - 1].found);
    }
  }

  lemma {:induction false} ResetAllFine(e: Entry, c: Ctx, w: Care)
    requires Fine(e, c, w)
    ensures Fine(Y.ResetAll(e), c, w.(calm := true))
    decreases e
  {
    ResetOk(e.les, w.calm);
    forall k | k in e.children ensures Fine(Y.ResetAll(e.children[k]), ChildCtx(c, k).value, w.(calm := true)) {
      ResetAllFine(e.children[k], ChildCtx(c, k).value, w);
    }
  }

  lemma {:induction false} Careless(e: Entry, c: Ctx, w: Care)
    requires Fine(e, c, w)
    ensures Fine(e, c, w.(calm := false))
    decreases e
  {
    forall i | 0 <= i < |e.les| ensures VariantOk(e.les[i], false) {
      assert VariantOk(e.les[i], w.calm);
    }
    forall k | k in e.children ensures Fine(e.children[k], ChildCtx(c, k).value, w.(calm := false)) {
      Careless(e.children[k], ChildCtx(c, k).value, w);
    }
  }

  /** A sync pass keeps a tree fine: what it imports ranks as running does, and afterwards no running
      variant carries a flag. */
  lemma {:induction false} SyncedFine(e: Entry, c: Ctx, w: Care, deletes: seq<Y.Lookup>, config: Option<P.Element>, zs: seq<Y.Lookup>)
    requires Fine(e, c, w) && CtxOk(c) && c.level == 0 && Y.Overlaid(e, c, deletes, config).Some?
    ensures Fine(Y.Synced(Y.Overlaid(e, c, deletes, config).value, zs), c, w.(calm := true))
  {
    var loose := w.(calm := false);
    Careless(e, c, w);
    MarkedUnderFine(e, c, loose, deletes);
    if config.Some? {
      ImportedFine(Y.MarkedUnder(e, deletes), c, loose, config.value, Y.RUNNING_ENTRY);
    }
    var m := Y.Overlaid(e, c, deletes, config).value;
    SweptFine(m, c, loose, false);
    CleanedUpFine(Y.Swept(m, false), c, loose, zs);
    ResetAllFine(Y.CleanedUp(Y.Swept(m, false), zs), c, loose);
  }
}
