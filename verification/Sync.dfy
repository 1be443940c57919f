/** Overlaying the device's reported configuration on the sync tree (pkg/datastore/sync.go,
    ApplyToRunning; pkg/tree/processors/processor_remove_deleted.go, processor_reset_flags.go). */
module Sync {
  import opened Base
  import opened Tree
  import opened Paths
  import opened Growth
  import opened Branches
  import P = Persist
  import T = Transactions
  import Southbound
  import L = Leaves
  import S = LeafStore

  /** A path, and whether navigation found it. */
  datatype Lookup = Lookup(path: Path, found: bool)

  // ---------------------------------------------------------------- marking the delete paths

  /** q lies at or below a delete path that was found. */
  predicate Under(ps: seq<Lookup>, q: Path) {
    exists i | 0 <= i < |ps| :: ps[i].path <= q && ps[i].found
  }

  /** A path that is not found is skipped. */
  function MarkedAt(e: Entry, l: Lookup): Entry {
    if !l.found || At(e, l.path).None? then e
    else ReplaceAt(e, l.path, T.MarkAll(At(e, l.path).value, RUNNING, false))
  }

  function MarkedUnder(e: Entry, ps: seq<Lookup>): Entry {
    if ps == [] then e else MarkedAt(MarkedUnder(e, ps[..|ps| - 1]), ps[|ps| - 1])
  }

  function Mark(v: Option<L.LeafEntry>): Option<L.LeafEntry> {
    if v.None? then None else Some(v.value.MarkDelete(false))
  }

  lemma {:induction false} SubtreeUnique(e: Entry, p: Path)
    requires OwnersUnique(e) && At(e, p).Some?
    ensures OwnersUnique(At(e, p).value)
    decreases p
  {
    if p != [] {
      SubtreeUnique(e.children[p[0]], p[1..]);
    }
  }

  lemma MarkedAtObserved(e: Entry, l: Lookup, q: Path, o: string)
    requires OwnersUnique(e)
    ensures OwnersUnique(MarkedAt(e, l))
    ensures VariantAt(MarkedAt(e, l), q, o) ==
            if o == RUNNING && l.path <= q && l.found then Mark(VariantAt(e, q, o)) else VariantAt(e, q, o)
  {
    var p := l.path;
    if l.found && At(e, p).Some? {
      var n := At(e, p).value;
      SubtreeUnique(e, p);
      T.MarkAllUnique(n, RUNNING, false);
      ReplacedObserved(e, p, T.MarkAll(n, RUNNING, false), q, o);
      T.MarkAllObserved(n, RUNNING, false, if p <= q then q[|p|..] else [], o);
    } else if l.found && p <= q {
      AbsentBelow(e, p, q);
    }
  }

  lemma {:induction false} UnderSnoc(ps: seq<Lookup>, q: Path)
    requires ps != []
    ensures Under(ps, q) <==> Under(ps[..|ps| - 1], q) || (ps[|ps| - 1].path <= q && ps[|ps| - 1].found)
  {
    var front := ps[..|ps| - 1];
    if Under(ps, q) {
      var i :| 0 <= i < |ps| && ps[i].path <= q && ps[i].found;
      assert i < |front| ==> front[i] == ps[i];
    }
    if Under(front, q) {
      var i :| 0 <= i < |front| && front[i].path <= q && front[i].found;
      assert ps[i] == front[i];
    }
  }

  /** Exactly the running variants at or below a delete path that was found are marked. */
  lemma {:induction false} MarkedUnderObserved(e: Entry, ps: seq<Lookup>, q: Path, o: string)
    requires OwnersUnique(e)
    ensures OwnersUnique(MarkedUnder(e, ps))
    ensures VariantAt(MarkedUnder(e, ps), q, o) ==
            if o == RUNNING && Under(ps, q) then Mark(VariantAt(e, q, o)) else VariantAt(e, q, o)
    decreases |ps|
  {
    if ps != [] {
      var front, l := ps[..|ps| - 1], ps[|ps| - 1];
      MarkedUnderObserved(e, front, q, o);
      MarkedAtObserved(MarkedUnder(e, front), l, q, o);
      UnderSnoc(ps, q);
    }
  }

  /** Marking changes no choice, so it changes nothing about which paths may be found. */
  lemma {:induction false} MarkAllReach(e: Entry, owner: string, orphan: bool, q: Path)
    ensures MayReach(T.MarkAll(e, owner, orphan), q) <==> MayReach(e, q)
    ensures MustReach(T.MarkAll(e, owner, orphan), q) <==> MustReach(e, q)
    decreases q
  {
    if q != [] && q[0] in e.children {
      MarkAllReach(e.children[q[0]], owner, orphan, q[1..]);
    }
  }

  lemma {:induction false} MarkedAtReach(e: Entry, l: Lookup, q: Path)
    ensures MayReach(MarkedAt(e, l), q) <==> MayReach(e, q)
    ensures MustReach(MarkedAt(e, l), q) <==> MustReach(e, q)
    decreases l.path
  {
    var p := l.path;
    if p == [] {
      MarkAllReach(e, RUNNING, false, q);
    } else if l.found && At(e, p).Some? && q != [] && q[0] == p[0] {
      MarkedAtReach(e.children[p[0]], Lookup(p[1..], true), q[1..]);
    }
  }

  lemma {:induction false} MarkedUnderReach(e: Entry, ps: seq<Lookup>, q: Path)
    ensures MayReach(MarkedUnder(e, ps), q) <==> MayReach(e, q)
    ensures MustReach(MarkedUnder(e, ps), q) <==> MustReach(e, q)
    decreases |ps|
  {
    if ps != [] {
      MarkedUnderReach(e, ps[..|ps| - 1], q);
      MarkedAtReach(MarkedUnder(e, ps[..|ps| - 1]), ps[|ps| - 1], q);
    }
  }

  // ---------------------------------------------------------------- removing what is marked

  function WithoutMarked(e: Entry): Entry {
    e.(les := S.RemovedIfDeleted(e.les, RUNNING))
  }

  /** Whether defaults count as content for the entry's children: below key levels they do. */
  predicate KeepsDefaults(e: Entry) {
    e.schema.None? || !e.schema.value.Container?
  }

  /** The walk that removes marked running variants. It does not descend below an entry that may
      be deleted as a whole. */
  function Swept(e: Entry, keepDefault: bool): Entry {
    var e1 := WithoutMarked(e);
    if CanDeleteBranch(e1, keepDefault) then e1
    else e1.(children := map k | k in e.children :: Swept(e.children[k], KeepsDefaults(e)))
  }

  /** The entries the walk stopped at. */
  ghost function Zeros(e: Entry, keepDefault: bool): set<Path> {
    if CanDeleteBranch(WithoutMarked(e), keepDefault) then {[]}
    else set k, z | k in e.children.Keys && z in Zeros(e.children[k], KeepsDefaults(e)) :: [k] + z
  }

  lemma {:induction false} SweptUnique(e: Entry, keepDefault: bool)
    requires OwnersUnique(e)
    ensures OwnersUnique(Swept(e, keepDefault))
  {
    S.RemovedIfDeletedPerOwner(e.les, RUNNING, RUNNING);
    forall k | k in e.children ensures OwnersUnique(Swept(e.children[k], KeepsDefaults(e))) {
      SweptUnique(e.children[k], KeepsDefaults(e));
    }
  }

  /** A marked running variant may go; everything else stays as it is. */
  lemma {:induction false} SweptKeeps(e: Entry, keepDefault: bool, q: Path, o: string)
    requires OwnersUnique(e)
    ensures var before, after := VariantAt(e, q, o), VariantAt(Swept(e, keepDefault), q, o);
            after == before || (o == RUNNING && after.None? && before.value.delete)
    decreases q
  {
    if q == [] {
      S.RemovedIfDeletedPerOwner(e.les, RUNNING, o);
    } else if q[0] in e.children {
      SweptKeeps(e.children[q[0]], KeepsDefaults(e), q[1..], o);
    }
  }

  lemma {:induction false} ZeroBelow(e: Entry, keepDefault: bool, k: string, z: Path)
    requires k in e.children && !CanDeleteBranch(WithoutMarked(e), keepDefault) && z in Zeros(e.children[k], KeepsDefaults(e))
    ensures [k] + z in Zeros(e, keepDefault)
  {
  }

  /** What is still marked lies at or below an entry the walk stopped at. */
  lemma {:induction false} MarkedIsBelowZero(e: Entry, keepDefault: bool, q: Path) returns (z: Path)
    requires OwnersUnique(e) && MarkedRunning(Swept(e, keepDefault), q)
    ensures z in Zeros(e, keepDefault) && z <= q
    decreases q
  {
    if CanDeleteBranch(WithoutMarked(e), keepDefault) {
      z := [];
    } else {
      MarkedBelow(e, keepDefault, q);
      var z' := MarkedIsBelowZero(e.children[q[0]], KeepsDefaults(e), q[1..]);
      ZeroBelow(e, keepDefault, q[0], z');
      z := [q[0]] + z';
    }
  }

  predicate MarkedRunning(e: Entry, q: Path) {
    VariantAt(e, q, RUNNING).Some? && VariantAt(e, q, RUNNING).value.delete
  }

  lemma {:induction false} MarkedBelow(e: Entry, keepDefault: bool, q: Path)
    requires OwnersUnique(e) && !CanDeleteBranch(WithoutMarked(e), keepDefault) && MarkedRunning(Swept(e, keepDefault), q)
    ensures q != [] && q[0] in e.children && MarkedRunning(Swept(e.children[q[0]], KeepsDefaults(e)), q[1..])
  {
    S.RemovedIfDeletedPerOwner(e.les, RUNNING, RUNNING);
  }

  /** The entries the walk stopped at are there, and deletable. */
  lemma {:induction false} ZeroDeletable(e: Entry, keepDefault: bool, z: Path)
    requires z in Zeros(e, keepDefault)
    ensures At(Swept(e, keepDefault), z).Some? && CanDeleteBranch(At(Swept(e, keepDefault), z).value, false)
    decreases e
  {
    if CanDeleteBranch(WithoutMarked(e), keepDefault) {
      FewerKept(WithoutMarked(e), keepDefault);
    } else {
      var k, z' :| k in e.children.Keys && z' in Zeros(e.children[k], KeepsDefaults(e)) && z == [k] + z';
      ZeroDeletable(e.children[k], KeepsDefaults(e), z');
      assert z[1..] == z';
    }
  }

  /** Below an entry the walk passes, it stops at a child exactly when nothing stays there: below a
      key level not even a default, below a container or list nothing but defaults. */
  lemma {:induction false} StopsAtChild(e: Entry, keepDefault: bool, k: string)
    requires !CanDeleteBranch(WithoutMarked(e), keepDefault) && k in e.children
    requires OwnersUnique(e.children[k]) && NoExplicit(WithoutMarked(e.children[k]))
    ensures [k] in Zeros(e, keepDefault) <==>
            NothingStays(WithoutMarked(e.children[k]), !(e.schema.Some? && e.schema.value.Container?))
  {
    var c, kd := e.children[k], KeepsDefaults(e);
    S.RemovedIfDeletedPerOwner(c.les, RUNNING, RUNNING);
    DeletableExactly(WithoutMarked(c), kd);
    if [k] in Zeros(e, keepDefault) {
      var k', z :| k' in e.children.Keys && z in Zeros(e.children[k'], kd) && [k] == [k'] + z;
      assert ([k'] + z)[0] == k' && ([k'] + z)[1..] == z && [k][1..] == [];
    }
    if CanDeleteBranch(WithoutMarked(c), kd) {
      assert [] in Zeros(c, kd);
      ZeroBelow(e, keepDefault, k, []);
      assert [k] + [] == [k];
    }
  }

  // ---------------------------------------------------------------- deleting the emptied branches

  /** Emptied branches are deleted as far as they are found again; the root has no parent to be
      deleted from and is skipped. */
  function CleanedUp(e: Entry, zs: seq<Lookup>): Entry {
    if zs == [] then e
    else
      var m, z := CleanedUp(e, zs[..|zs| - 1]), zs[|zs| - 1];
      if z.path == [] then m else BranchDeleted(m, z.path, RUNNING, z.found)
  }

  /** A branch that was not found is gone already. */
  predicate AllFound(e: Entry, zs: seq<Lookup>) {
    forall i | 0 <= i < |zs| && zs[i].path != [] && !zs[i].found :: At(CleanedUp(e, zs[..i]), zs[i].path).None?
  }

  ghost predicate NothingLive(e: Entry, z: Path) {
    forall q, o | z <= q && o != DEFAULT :: LiveAt(e, q, o).None?
  }

  lemma {:induction false} CleanedUpKeeps(e: Entry, zs: seq<Lookup>, q: Path, o: string)
    requires OwnersUnique(e) && NoExplicit(e) && forall i | 0 <= i < |zs| :: NothingLive(e, zs[i].path)
    ensures OwnersUnique(CleanedUp(e, zs)) && NoExplicit(CleanedUp(e, zs))
    ensures o != DEFAULT ==> LiveAt(CleanedUp(e, zs), q, o) == LiveAt(e, q, o)
    ensures VariantAt(CleanedUp(e, zs), q, o).Some? ==> VariantAt(CleanedUp(e, zs), q, o) == VariantAt(e, q, o)
    decreases |zs|
  {
    if zs != [] {
      var front, z := zs[..|zs| - 1], zs[|zs| - 1];
      var m := CleanedUp(e, front);
      CleanedUpKeeps(e, front, q, o);
      if z.path != [] {
        BranchDeletionConserves(m, z.path, RUNNING, z.found, q, o);
        BranchDeletionNoExplicit(m, z.path, RUNNING, z.found);
        assert NothingLive(e, z.path);
      }
    }
  }

  lemma {:induction false} CleanedUpEmpties(e: Entry, zs: seq<Lookup>, i: nat, q: Path)
    requires AllFound(e, zs) && OwnersUnique(e) && NoExplicit(e) && forall i | 0 <= i < |zs| :: NothingLive(e, zs[i].path)
    requires i < |zs| && zs[i].path != [] && zs[i].path <= q
    ensures VariantAt(CleanedUp(e, zs), q, RUNNING).None?
    decreases |zs|
  {
    var front, z := zs[..|zs| - 1], zs[|zs| - 1];
    var m := CleanedUp(e, front);
    CleanedUpKeeps(e, front, q, RUNNING);
    if z.path != [] {
      BranchDeletionConserves(m, z.path, RUNNING, z.found, q, RUNNING);
      if At(m, z.path).None? && z.path <= q {
        AbsentBelow(m, z.path, q);
      }
    }
    if i < |zs| - 1 {
      AllFoundFront(e, zs);
      CleanedUpEmpties(e, front, i, q);
    }
  }

  lemma {:induction false} AllFoundFront(e: Entry, zs: seq<Lookup>)
    requires zs != [] && AllFound(e, zs)
    ensures AllFound(e, zs[..|zs| - 1])
  {
    var front := zs[..|zs| - 1];
    forall i | 0 <= i < |front| && front[i].path != [] && !front[i].found ensures At(CleanedUp(e, front[..i]), front[i].path).None? {
      assert front[..i] == zs[..i];
    }
  }

  // ---------------------------------------------------------------- clearing the flags

  function ResetAll(e: Entry): Entry {
    e.(les := S.Reset(e.les, true, true, true), children := map k | k in e.children :: ResetAll(e.children[k]))
  }

  function Cleared(v: Option<L.LeafEntry>): Option<L.LeafEntry> {
    if v.None? then None else Some(v.value.ResetFlags(true, true, true))
  }

  lemma {:induction false} ResetAllObserved(e: Entry, q: Path, o: string)
    requires OwnersUnique(e)
    ensures VariantAt(ResetAll(e), q, o) == Cleared(VariantAt(e, q, o))
    decreases q
  {
    if q == [] {
      S.ResetPerOwner(e.les, true, true, true, o);
    } else if q[0] in e.children {
      ResetAllObserved(e.children[q[0]], q[1..], o);
    }
  }

  // ---------------------------------------------------------------- the whole pass

  /** The variant the import of the device's configuration creates. */
  const RUNNING_ENTRY := L.LeafEntry(RUNNING, RUNNING_PRIO, P.EMPTY, false, false, false, false, false)

  function Overlaid(e: Entry, c: Ctx, deletes: seq<Lookup>, config: Option<P.Element>): Option<Entry>
    requires c.level == 0
  {
    var marked := MarkedUnder(e, deletes);
    if config.None? then Some(marked) else P.Imported(marked, c, config.value, RUNNING_ENTRY)
  }

  /** The tree after the pass, given the order in which the emptied branches are deleted. */
  function Synced(overlaid: Entry, zs: seq<Lookup>): Entry {
    ResetAll(CleanedUp(Swept(overlaid, false), zs))
  }

  predicate Mentions(zs: seq<Lookup>, z: Path) {
    exists i | 0 <= i < |zs| :: zs[i].path == z
  }

  ghost predicate ListsZeros(overlaid: Entry, zs: seq<Lookup>) {
    forall z :: Mentions(zs, z) <==> z in Zeros(overlaid, false)
  }

  /** Between passes no variant but a default's carries a delete mark. */
  ghost predicate Calm(e: Entry) {
    && OwnersUnique(e)
    && forall q, o | o != DEFAULT && VariantAt(e, q, o).Some? ::
         var l := VariantAt(e, q, o).value; !l.delete && !l.onlyIntended && !l.explicitDelete
  }

  function ContentOf(c: Ctx, config: Option<P.Element>, q: Path): Option<Value> {
    if config.None? then None else P.Content(c, config.value, q)
  }

  /** What the owner should hold at q after the pass. */
  function Expected(e: Entry, c: Ctx, deletes: seq<Lookup>, config: Option<P.Element>, q: Path, o: string): Option<Value> {
    if o != RUNNING then LiveAt(e, q, o)
    else if ContentOf(c, config, q).Some? then ContentOf(c, config, q)
    else if Under(deletes, q) then None
    else LiveAt(e, q, o)
  }

  ghost predicate SomethingStays(e: Entry, c: Ctx, deletes: seq<Lookup>, config: Option<P.Element>) {
    exists q, o :: o != DEFAULT && Expected(e, c, deletes, config, q, o).Some?
  }

  /** After marking and importing: live is what is expected, the rest is marked for removal. */
  lemma OverlaidObserved(e: Entry, c: Ctx, deletes: seq<Lookup>, config: Option<P.Element>, q: Path, o: string)
    requires c.level == 0 && Calm(e) && o != DEFAULT && Overlaid(e, c, deletes, config).Some?
    ensures var m := Overlaid(e, c, deletes, config).value;
            && OwnersUnique(m)
            && LiveAt(m, q, o) == Expected(e, c, deletes, config, q, o)
            && (VariantAt(m, q, o).Some? ==>
                  !VariantAt(m, q, o).value.onlyIntended && !VariantAt(m, q, o).value.explicitDelete)
            && (VariantAt(m, q, o).Some? && LiveAt(m, q, o).None? ==> LiveAt(e, q, o) == Some(VariantAt(m, q, o).value.value))
            && (VariantAt(e, q, o).Some? ==> VariantAt(m, q, o).Some?)
  {
    MarkedUnderObserved(e, deletes, q, o);
    if config.Some? {
      P.ImportedObserved(MarkedUnder(e, deletes), c, config.value, RUNNING_ENTRY, q, o);
    }
  }

  lemma OverlaidTame(e: Entry, c: Ctx, deletes: seq<Lookup>, config: Option<P.Element>)
    requires c.level == 0 && Calm(e) && Overlaid(e, c, deletes, config).Some?
    ensures var m := Overlaid(e, c, deletes, config).value;
            OwnersUnique(m) && NoExplicit(m) && OwnersUnique(Swept(m, false)) && NoExplicit(Swept(m, false))
  {
    var m := Overlaid(e, c, deletes, config).value;
    OverlaidObserved(e, c, deletes, config, [], RUNNING);
    SweptUnique(m, false);
    forall q, o | o != DEFAULT
      ensures VariantAt(m, q, o).Some? ==> !VariantAt(m, q, o).value.explicitDelete
      ensures VariantAt(Swept(m, false), q, o).Some? ==> !VariantAt(Swept(m, false), q, o).value.explicitDelete
    {
      OverlaidObserved(e, c, deletes, config, q, o);
      SweptKeeps(m, false, q, o);
    }
  }

  /** Nothing live lies below an entry the walk stopped at. */
  lemma ZeroNotLive(m: Entry, z: Path)
    requires OwnersUnique(Swept(m, false)) && NoExplicit(Swept(m, false)) && z in Zeros(m, false)
    ensures NothingLive(Swept(m, false), z)
  {
    var s := Swept(m, false);
    ZeroDeletable(m, false, z);
    SubtreeOk(s, z);
    forall q, o | z <= q && o != DEFAULT ensures LiveAt(s, q, o).None? {
      ReplacedObserved(s, z, s, q, o);
      if VariantAt(s, q, o).Some? {
        DeletableIsLeaving(At(s, z).value, false, q[|z|..], o);
      }
    }
  }

  /** The walk stops at the root exactly when nothing is to stay. */
  lemma RootZero(e: Entry, c: Ctx, deletes: seq<Lookup>, config: Option<P.Element>)
    requires c.level == 0 && Calm(e) && Overlaid(e, c, deletes, config).Some?
    ensures [] in Zeros(Overlaid(e, c, deletes, config).value, false) <==> !SomethingStays(e, c, deletes, config)
  {
    var m := Overlaid(e, c, deletes, config).value;
    OverlaidTame(e, c, deletes, config);
    if [] in Zeros(m, false) {
      ZeroNotLive(m, []);
      forall q, o | o != DEFAULT ensures Expected(e, c, deletes, config, q, o).None? {
        OverlaidObserved(e, c, deletes, config, q, o);
        SweptKeeps(m, false, q, o);
        assert [] <= q;
        assert LiveAt(Swept(m, false), q, o).None?;
      }
    }
    if !SomethingStays(e, c, deletes, config) {
      forall q, o | o != DEFAULT && VariantAt(m, q, o).Some? ensures Leaving(VariantAt(m, q, o).value) {
        OverlaidObserved(e, c, deletes, config, q, o);
        assert Expected(e, c, deletes, config, q, o).None?;
      }
      LeavingRoot(m);
    }
  }

  lemma LeavingRoot(m: Entry)
    requires OwnersUnique(m) && forall q, o | o != DEFAULT && VariantAt(m, q, o).Some? :: Leaving(VariantAt(m, q, o).value)
    ensures CanDeleteBranch(WithoutMarked(m), false)
  {
    var m1 := WithoutMarked(m);
    S.RemovedIfDeletedPerOwner(m.les, RUNNING, RUNNING);
    forall q, o | o != DEFAULT && VariantAt(m1, q, o).Some? ensures Leaving(VariantAt(m1, q, o).value) {
      S.RemovedIfDeletedPerOwner(m.les, RUNNING, o);
      assert VariantAt(m, q, o).Some?;
    }
    LeavingIsDeletable(m1, false);
  }

  lemma {:induction false} MarkAllChoiceFree(e: Entry, owner: string, orphan: bool)
    requires Southbound.ChoiceFree(e)
    ensures Southbound.ChoiceFree(T.MarkAll(e, owner, orphan))
  {
    forall k | k in e.children ensures Southbound.ChoiceFree(T.MarkAll(e.children[k], owner, orphan)) {
      MarkAllChoiceFree(e.children[k], owner, orphan);
    }
  }

  lemma {:induction false} MarkedUnderChoiceFree(e: Entry, ps: seq<Lookup>)
    requires Southbound.ChoiceFree(e)
    ensures Southbound.ChoiceFree(MarkedUnder(e, ps))
    decreases |ps|
  {
    if ps != [] {
      var m, p := MarkedUnder(e, ps[..|ps| - 1]), ps[|ps| - 1].path;
      MarkedUnderChoiceFree(e, ps[..|ps| - 1]);
      if At(m, p).Some? {
        SubtreeChoiceFree(m, p);
        MarkAllChoiceFree(At(m, p).value, RUNNING, false);
        ReplaceChoiceFree(m, p, T.MarkAll(At(m, p).value, RUNNING, false));
      }
    }
  }

  lemma NewEntryChoiceFree(c: Ctx)
    ensures Southbound.ChoiceFree(NewEntry(c))
  {
    forall k | k in NewEntry(c).children ensures Southbound.ChoiceFree(NewEntry(c).children[k]) {
      assert NewEntry(c).children[k] == DefaultLeaf(c.schema.defaults[k]);
    }
  }

  lemma {:induction false} GrowChoiceFree(e: Entry, c: Ctx, p: Path, n: Entry, f: Entry -> Entry)
    requires Southbound.ChoiceFree(e) && Southbound.ChoiceFree(n) && (forall x :: f(x) == n) && Grow(e, c, p, f).Some?
    ensures Southbound.ChoiceFree(Grow(e, c, p, f).value)
    decreases p
  {
    if p != [] {
      var d := ChildCtx(c, p[0]).value;
      NewEntryChoiceFree(d);
      GrowChoiceFree(ChildOrNew(e, d, p[0]), d, p[1..], n, f);
    }
  }

  lemma {:induction false} WalkedChoiceFree(e: Entry, c: Ctx, p: Path)
    requires Southbound.ChoiceFree(e) && CtxAt(c, p).Some?
    ensures Southbound.ChoiceFree(P.Walked(e, c, p))
    decreases p
  {
    if p != [] {
      var d := ChildCtx(c, p[0]).value;
      NewEntryChoiceFree(d);
      WalkedChoiceFree(ChildOrNew(e, d, p[0]), d, p[1..]);
    }
  }

  /** Import creates no choices. */
  lemma {:induction false} ImportedChoiceFree(e: Entry, c: Ctx, el: P.Element, le: L.LeafEntry)
    requires (c.level == 0 || AtContent(c)) && Southbound.ChoiceFree(e) && P.Imported(e, c, el, le).Some?
    ensures Southbound.ChoiceFree(P.Imported(e, c, el, le).value)
    decreases el, 1, 0
  {
    if c.schema.Container? {
      var names := P.KeyTexts(c, el);
      P.PassKeyLevels(c, names);
      var at := P.Walked(e, c, names);
      WalkedChoiceFree(e, c, names);
      ghost var n := P.Bare(at, c, names, le);
      if el.childs != [] {
        ChildsChoiceFree(at, P.ContentCtx(c), el, |el.childs|, le);
        n := P.ImportedChilds(at, P.ContentCtx(c), el, |el.childs|, le).value;
      }
      GrowChoiceFree(e, c, names, n, (x: Entry) => n);
      assert P.Imported(e, c, el, le) == P.Planted(e, c, names, n);
    }
  }

  lemma {:induction false} ChildsChoiceFree(e: Entry, c: Ctx, el: P.Element, n: nat, le: L.LeafEntry)
    requires n <= |el.childs| && AtContent(c) && Southbound.ChoiceFree(e) && P.ImportedChilds(e, c, el, n, le).Some?
    ensures Southbound.ChoiceFree(P.ImportedChilds(e, c, el, n, le).value)
    decreases el, 0, n
  {
    if n > 0 {
      ChildsChoiceFree(e, c, el, n - 1, le);
      var m, x := P.ImportedChilds(e, c, el, n - 1, le).value, el.childs[n - 1];
      var d := ChildCtx(c, x.name).value;
      NewEntryChoiceFree(d);
      ImportedChoiceFree(ChildOrNew(m, d, x.name), d, x, le);
    }
  }

  lemma {:induction false} SweptChoiceFree(e: Entry, keepDefault: bool)
    requires Southbound.ChoiceFree(e)
    ensures Southbound.ChoiceFree(Swept(e, keepDefault))
  {
    forall k | k in e.children ensures Southbound.ChoiceFree(Swept(e.children[k], KeepsDefaults(e))) {
      SweptChoiceFree(e.children[k], KeepsDefaults(e));
    }
  }

  lemma OverlaidChoiceFree(e: Entry, c: Ctx, deletes: seq<Lookup>, config: Option<P.Element>)
    requires c.level == 0 && Southbound.ChoiceFree(e) && Overlaid(e, c, deletes, config).Some?
    ensures Southbound.ChoiceFree(Overlaid(e, c, deletes, config).value)
    ensures Southbound.ChoiceFree(Swept(Overlaid(e, c, deletes, config).value, false))
  {
    MarkedUnderChoiceFree(e, deletes);
    if config.Some? {
      ImportedChoiceFree(MarkedUnder(e, deletes), c, config.value, RUNNING_ENTRY);
    }
    SweptChoiceFree(Overlaid(e, c, deletes, config).value, false);
  }

  lemma {:induction false} CleanedUpChoiceFree(e: Entry, zs: seq<Lookup>)
    requires Southbound.ChoiceFree(e)
    ensures Southbound.ChoiceFree(CleanedUp(e, zs))
    decreases |zs|
  {
    if zs != [] {
      var m, z := CleanedUp(e, zs[..|zs| - 1]), zs[|zs| - 1];
      CleanedUpChoiceFree(e, zs[..|zs| - 1]);
      if z.path != [] {
        BranchDeletedChoiceFree(m, z.path, RUNNING, z.found);
      }
    }
  }

  lemma ZerosNotLive(m: Entry, zs: seq<Lookup>)
    requires OwnersUnique(Swept(m, false)) && NoExplicit(Swept(m, false)) && ListsZeros(m, zs)
    ensures forall i | 0 <= i < |zs| :: NothingLive(Swept(m, false), zs[i].path)
  {
    forall i | 0 <= i < |zs| ensures NothingLive(Swept(m, false), zs[i].path) {
      assert Mentions(zs, zs[i].path);
      ZeroNotLive(m, zs[i].path);
    }
  }

  /** Before the flags are cleared, what is live is as expected. */
  lemma CleanedObserved(e: Entry, c: Ctx, deletes: seq<Lookup>, config: Option<P.Element>, zs: seq<Lookup>, q: Path, o: string)
    requires c.level == 0 && Calm(e) && Overlaid(e, c, deletes, config).Some? && o != DEFAULT
    requires ListsZeros(Overlaid(e, c, deletes, config).value, zs)
    ensures var d := CleanedUp(Swept(Overlaid(e, c, deletes, config).value, false), zs);
            OwnersUnique(d) && LiveAt(d, q, o) == Expected(e, c, deletes, config, q, o)
  {
    var m := Overlaid(e, c, deletes, config).value;
    OverlaidObserved(e, c, deletes, config, q, o);
    OverlaidTame(e, c, deletes, config);
    SweptKeeps(m, false, q, o);
    ZerosNotLive(m, zs);
    CleanedUpKeeps(Swept(m, false), zs, q, o);
  }

  /** Nothing marked is left if every emptied branch was found and the walk did not stop at the root. */
  lemma CleanedUnmarked(e: Entry, c: Ctx, deletes: seq<Lookup>, config: Option<P.Element>, zs: seq<Lookup>, q: Path)
    requires c.level == 0 && Calm(e) && Overlaid(e, c, deletes, config).Some? && SomethingStays(e, c, deletes, config)
    requires ListsZeros(Overlaid(e, c, deletes, config).value, zs)
    requires AllFound(Swept(Overlaid(e, c, deletes, config).value, false), zs)
    ensures !MarkedRunning(CleanedUp(Swept(Overlaid(e, c, deletes, config).value, false), zs), q)
  {
    var m := Overlaid(e, c, deletes, config).value;
    var s := Swept(m, false);
    OverlaidTame(e, c, deletes, config);
    ZerosNotLive(m, zs);
    CleanedUpKeeps(s, zs, q, RUNNING);
    if MarkedRunning(s, q) {
      RootZero(e, c, deletes, config);
      var z := MarkedIsBelowZero(m, false, q);
      assert Mentions(zs, z);
      var i: nat :| i < |zs| && zs[i].path == z;
      CleanedUpEmpties(s, zs, i, q);
    }
  }

  /** Leaf by leaf: running ends as expected if and only if no mark was left on it. */
  lemma SyncLeafExact(e: Entry, c: Ctx, deletes: seq<Lookup>, config: Option<P.Element>, zs: seq<Lookup>, q: Path)
    requires c.level == 0 && Calm(e) && Overlaid(e, c, deletes, config).Some?
    requires ListsZeros(Overlaid(e, c, deletes, config).value, zs)
    ensures LiveAt(Synced(Overlaid(e, c, deletes, config).value, zs), q, RUNNING) == Expected(e, c, deletes, config, q, RUNNING) <==>
            !MarkedRunning(CleanedUp(Swept(Overlaid(e, c, deletes, config).value, false), zs), q)
  {
    CleanedObserved(e, c, deletes, config, zs, q, RUNNING);
    ResetAllObserved(CleanedUp(Swept(Overlaid(e, c, deletes, config).value, false), zs), q, RUNNING);
  }

  /** Sync overlay: if every emptied branch is found and anything but defaults is to stay, running
      ends as the old running without the leaves under the delete paths that were found, overlaid
      with the imported configuration, all flags clear; every other owner holds what it held. */
  lemma SyncOverlay(e: Entry, c: Ctx, deletes: seq<Lookup>, config: Option<P.Element>, zs: seq<Lookup>, q: Path, o: string)
    requires c.level == 0 && Calm(e) && Overlaid(e, c, deletes, config).Some? && o != DEFAULT
    requires ListsZeros(Overlaid(e, c, deletes, config).value, zs) && SomethingStays(e, c, deletes, config)
    requires AllFound(Swept(Overlaid(e, c, deletes, config).value, false), zs)
    ensures var v := VariantAt(Synced(Overlaid(e, c, deletes, config).value, zs), q, o);
            && (o == RUNNING ==> (v.Some? <==> Expected(e, c, deletes, config, q, o).Some?))
            && (Expected(e, c, deletes, config, q, o).Some? ==>
                  v.Some? && v.value.value == Expected(e, c, deletes, config, q, o).value
                  && !v.value.delete && !v.value.isNew && !v.value.isUpdated)
  {
    CleanedObserved(e, c, deletes, config, zs, q, o);
    CleanedUnmarked(e, c, deletes, config, zs, q);
    ResetAllObserved(CleanedUp(Swept(Overlaid(e, c, deletes, config).value, false), zs), q, o);
  }

  lemma {:induction false} OnlyRootSkipped(e: Entry, zs: seq<Lookup>)
    requires forall i | 0 <= i < |zs| :: zs[i].path == []
    ensures CleanedUp(e, zs) == e
  {
    if zs != [] {
      OnlyRootSkipped(e, zs[..|zs| - 1]);
    }
  }

  /** If nothing but defaults is to stay, the walk stops at the root, the root is skipped, and
      clearing the flags brings the deleted running values back. */
  lemma SyncResurrects(e: Entry, c: Ctx, deletes: seq<Lookup>, config: Option<P.Element>, zs: seq<Lookup>, q: Path)
    requires c.level == 0 && Calm(e) && Overlaid(e, c, deletes, config).Some? && q != []
    requires ListsZeros(Overlaid(e, c, deletes, config).value, zs) && !SomethingStays(e, c, deletes, config)
    ensures LiveAt(Synced(Overlaid(e, c, deletes, config).value, zs), q, RUNNING) == LiveAt(e, q, RUNNING)
  {
    var m := Overlaid(e, c, deletes, config).value;
    RootZero(e, c, deletes, config);
    OverlaidObserved(e, c, deletes, config, q, RUNNING);
    OverlaidTame(e, c, deletes, config);
    forall i | 0 <= i < |zs| ensures zs[i].path == [] {
      assert Mentions(zs, zs[i].path);
    }
    OnlyRootSkipped(Swept(m, false), zs);
    ResetAllObserved(Swept(m, false), q, RUNNING);
    assert VariantAt(Swept(m, false), q, RUNNING) == VariantAt(m, q, RUNNING);
    assert Expected(e, c, deletes, config, q, RUNNING).None?;
  }

  /** If every emptied branch is found, the pass meets the overlay exactly when something but
      defaults is to stay, or running was empty to begin with. */
  lemma SyncExact(e: Entry, c: Ctx, deletes: seq<Lookup>, config: Option<P.Element>, zs: seq<Lookup>)
    requires c.level == 0 && Calm(e) && Overlaid(e, c, deletes, config).Some?
    requires ListsZeros(Overlaid(e, c, deletes, config).value, zs)
    requires AllFound(Swept(Overlaid(e, c, deletes, config).value, false), zs)
    ensures (forall q | q != [] :: LiveAt(Synced(Overlaid(e, c, deletes, config).value, zs), q, RUNNING)
                                   == Expected(e, c, deletes, config, q, RUNNING))
            <==> SomethingStays(e, c, deletes, config) || forall q | q != [] :: LiveAt(e, q, RUNNING).None?
  {
    var after := Synced(Overlaid(e, c, deletes, config).value, zs);
    forall q | q != []
      ensures SomethingStays(e, c, deletes, config) ==> LiveAt(after, q, RUNNING) == Expected(e, c, deletes, config, q, RUNNING)
      ensures !SomethingStays(e, c, deletes, config) ==>
                LiveAt(after, q, RUNNING) == LiveAt(e, q, RUNNING) && Expected(e, c, deletes, config, q, RUNNING).None?
    {
      if SomethingStays(e, c, deletes, config) {
        SyncOverlay(e, c, deletes, config, zs, q, RUNNING);
      } else {
        SyncResurrects(e, c, deletes, config, zs, q);
      }
    }
  }

  /** The failing input: the only running leaf is deleted, and comes back. */
  lemma DeletedLeafComesBack(c: Ctx)
    requires c.level == 0
    ensures var leaf := Entry(Some(Field("string")), map[], [RUNNING_ENTRY.(value := Value("string", "x"))], map[], {});
            var e := Entry(Some(c.schema), map["a" := leaf], [], map[], {});
            var deletes := [Lookup(["a"], true)];
            var m := Overlaid(e, c, deletes, None).value;
            && Calm(e) && Southbound.ChoiceFree(e) && At(e, ["a"]).Some? && Under(deletes, ["a"])
            && forall zs | ListsZeros(m, zs) :: LiveAt(Synced(m, zs), ["a"], RUNNING) == Some(Value("string", "x"))
  {
    var leaf := Entry(Some(Field("string")), map[], [RUNNING_ENTRY.(value := Value("string", "x"))], map[], {});
    var e := Entry(Some(c.schema), map["a" := leaf], [], map[], {});
    var deletes := [Lookup(["a"], true)];
    assert OwnersUnique(leaf) && OwnersUnique(e);
    assert forall r: Path | r != [] :: At(leaf, r).None?;
    forall q, o | VariantAt(e, q, o).Some? ensures q == ["a"] && o == RUNNING && VariantAt(e, q, o) == Some(leaf.les[0]) {
      assert q != [] && q[0] == "a" && At(e, q) == At(leaf, q[1..]);
      assert At(e, q) == Some(leaf) && leaf.les[0].owner == RUNNING;
      assert q == ["a"] + q[1..];
    }
    assert Southbound.ChoiceFree(leaf) && Southbound.ChoiceFree(e);
    assert ["a"][1..] == [] && At(e, ["a"]) == Some(leaf);
    assert deletes[0].path <= ["a"] && deletes[0].found;
    assert !SomethingStays(e, c, deletes, None);
    var m := Overlaid(e, c, deletes, None).value;
    assert VariantAt(e, ["a"], RUNNING) == Some(leaf.les[0]);
    forall zs | ListsZeros(m, zs) ensures LiveAt(Synced(m, zs), ["a"], RUNNING) == Some(Value("string", "x")) {
      SyncResurrects(e, c, deletes, None, zs, ["a"]);
    }
  }

  // ---------------------------------------------------------------- the passes in place

  /** The removing walk, which collects the entries it stops at in any order. */
  method RemoveDeleted(e: Entry, keepDefault: bool) returns (r: Entry, zs: seq<Path>)
    ensures r == Swept(e, keepDefault)
    ensures forall z :: z in zs <==> z in Zeros(e, keepDefault)
    decreases e, 1
  {
    var e1 := WithoutMarked(e);
    var whole := CanDeleteBranchWalk(e1, keepDefault);
    if whole {
      return e1, [[]];
    }
    var swept;
    swept, zs := RemoveDeletedBelow(e);
    assert swept == Swept(e, keepDefault).children;
    r := e1.(children := swept);
    forall z ensures z in zs <==> z in Zeros(e, keepDefault) {
      ZerosSplit(e, keepDefault, z);
    }
  }

  method RemoveDeletedBelow(e: Entry) returns (swept: map<string, Entry>, zs: seq<Path>)
    ensures swept.Keys == e.children.Keys && forall k | k in swept :: swept[k] == Swept(e.children[k], KeepsDefaults(e))
    ensures forall z :: z in zs <==> z != [] && z[0] in e.children && z[1..] in Zeros(e.children[z[0]], KeepsDefaults(e))
    decreases e, 0
  {
    swept, zs := map[], [];
    var todo := e.children.Keys;
    while todo != {}
      invariant todo <= e.children.Keys && swept.Keys == e.children.Keys - todo
      invariant forall k | k in swept :: swept[k] == Swept(e.children[k], KeepsDefaults(e))
      invariant forall z :: z in zs <==> z != [] && z[0] in swept && z[1..] in Zeros(e.children[z[0]], KeepsDefaults(e))
      decreases todo
    {
      var k :| k in todo;
      var child, below := RemoveDeleted(e.children[k], KeepsDefaults(e));
      zs := zs + Prefixed(k, below);
      PrefixedMembers(k, below);
      swept := swept[k := child];
      todo := todo - {k};
    }
  }

  function Prefixed(k: string, zs: seq<Path>): seq<Path> {
    seq(|zs|, i requires 0 <= i < |zs| => [k] + zs[i])
  }

  lemma PrefixedMembers(k: string, zs: seq<Path>)
    ensures forall z :: z in Prefixed(k, zs) <==> z != [] && z[0] == k && z[1..] in zs
  {
    forall z ensures z in Prefixed(k, zs) <==> z != [] && z[0] == k && z[1..] in zs {
      if z in Prefixed(k, zs) {
        var i :| 0 <= i < |zs| && Prefixed(k, zs)[i] == z;
        assert z[1..] == zs[i];
      }
      if z != [] && z[0] == k && z[1..] in zs {
        var i :| 0 <= i < |zs| && zs[i] == z[1..];
        assert Prefixed(k, zs)[i] == z;
      }
    }
  }

  lemma {:induction false} ZerosSplit(e: Entry, keepDefault: bool, z: Path)
    requires !CanDeleteBranch(WithoutMarked(e), keepDefault)
    ensures z in Zeros(e, keepDefault) <==> z != [] && z[0] in e.children && z[1..] in Zeros(e.children[z[0]], KeepsDefaults(e))
  {
    if z in Zeros(e, keepDefault) {
      var k, z' :| k in e.children.Keys && z' in Zeros(e.children[k], KeepsDefaults(e)) && z == [k] + z';
      assert z[1..] == z';
    }
    if z != [] && z[0] in e.children && z[1..] in Zeros(e.children[z[0]], KeepsDefaults(e)) {
      assert z == [z[0]] + z[1..];
      ZeroBelow(e, keepDefault, z[0], z[1..]);
    }
  }

  method ResetFlagsWalk(e: Entry) returns (r: Entry)
    ensures r == ResetAll(e)
    decreases e
  {
    var reset: map<string, Entry> := map[];
    var todo := e.children.Keys;
    while todo != {}
      invariant todo <= e.children.Keys && reset.Keys == e.children.Keys - todo
      invariant forall k | k in reset :: reset[k] == ResetAll(e.children[k])
      decreases todo
    {
      var k :| k in todo;
      var child := ResetFlagsWalk(e.children[k]);
      reset := reset[k := child];
      todo := todo - {k};
    }
    assert reset == ResetAll(e).children;
    r := e.(les := S.Reset(e.les, true, true, true), children := reset);
  }

  method MarkWalk(e: Entry, owner: string, orphan: bool) returns (r: Entry)
    ensures r == T.MarkAll(e, owner, orphan)
    decreases e
  {
    var marked: map<string, Entry> := map[];
    var todo := e.children.Keys;
    while todo != {}
      invariant todo <= e.children.Keys && marked.Keys == e.children.Keys - todo
      invariant forall k | k in marked :: marked[k] == T.MarkAll(e.children[k], owner, orphan)
      decreases todo
    {
      var k :| k in todo;
      var child := MarkWalk(e.children[k], owner, orphan);
      marked := marked[k := child];
      todo := todo - {k};
    }
    assert marked == T.MarkAll(e, owner, orphan).children;
    r := e.(les := S.Marked(e.les, owner, orphan), children := marked);
  }

  /** Navigates to one delete path and marks what is below it. */
  method MarkPath(t: BranchTree, p: Path) returns (l: Lookup)
    modifies t
    ensures l.path == p && Resolves(old(t.root), p, l.found) && t.root == MarkedAt(old(t.root), l)
  {
    var found := Navigate(t.root, p);
    l := Lookup(p, found);
    if found {
      MayReachAt(t.root, p);
      var marked := MarkWalk(At(t.root, p).value, RUNNING, false);
      t.root := ReplaceAt(t.root, p, marked);
    }
  }

  /** What a look-up of the branch z from its parent may say; a branch whose parent has gone is gone. */
  ghost predicate ResolvesFromParent(e: Entry, l: Lookup)
    requires l.path != []
  {
    if At(e, Up(l.path)).Some? then Resolves(At(e, Up(l.path)).value, [l.path[|l.path| - 1]], l.found) else !l.found
  }

  /** Deletes one emptied branch from its parent. */
  method CleanBranch(t: BranchTree, z: Path) returns (l: Lookup)
    requires z != []
    modifies t
    ensures l.path == z && ResolvesFromParent(old(t.root), l) && t.root == BranchDeleted(old(t.root), z, RUNNING, l.found)
  {
    l := Lookup(z, false);
    if At(t.root, Up(z)).Some? {
      assert z == Up(z) + [z[|z| - 1]];
      var found := t.DeleteBranch(Up(z), [z[|z| - 1]], RUNNING);
      l := Lookup(z, found);
    }
  }

  /** Every look-up of the clean-up. */
  ghost predicate CleanUpResolves(e: Entry, zs: seq<Lookup>) {
    forall i | 0 <= i < |zs| && zs[i].path != [] :: ResolvesFromParent(CleanedUp(e, zs[..i]), zs[i])
  }

  /** Without choices every emptied branch that is still there is found. */
  lemma ChoiceFreeFinds(e: Entry, zs: seq<Lookup>)
    requires Southbound.ChoiceFree(e) && CleanUpResolves(e, zs)
    ensures AllFound(e, zs)
  {
    forall i | 0 <= i < |zs| && zs[i].path != [] && !zs[i].found ensures At(CleanedUp(e, zs[..i]), zs[i].path).None? {
      var m, z := CleanedUp(e, zs[..i]), zs[i].path;
      var last := z[|z| - 1];
      assert ResolvesFromParent(m, zs[i]) && z == Up(z) + [last];
      CleanedUpChoiceFree(e, zs[..i]);
      if At(m, Up(z)).Some? {
        SubtreeChoiceFree(m, Up(z));
        ResolvesThere(At(m, Up(z)).value, [last], false);
        AtConcat(m, Up(z), [last]);
      } else {
        AbsentBelow(m, Up(z), z);
      }
    }
  }

  /** Marks what is below each delete path that is found. */
  method MarkPaths(t: BranchTree, deletes: seq<Path>) returns (ls: seq<Lookup>)
    modifies t
    ensures |ls| == |deletes| && t.root == MarkedUnder(old(t.root), ls)
    ensures forall i | 0 <= i < |ls| :: ls[i].path == deletes[i] && Resolves(old(t.root), deletes[i], ls[i].found)
  {
    ghost var root0 := t.root;
    ls := [];
    for i := 0 to |deletes|
      invariant |ls| == i && t.root == MarkedUnder(root0, ls)
      invariant forall j | 0 <= j < i :: ls[j].path == deletes[j] && Resolves(root0, deletes[j], ls[j].found)
    {
      MarkedUnderReach(root0, ls, deletes[i]);
      var l := MarkPath(t, deletes[i]);
      assert (ls + [l])[..i] == ls;
      ls := ls + [l];
    }
  }

  /** Deletes the emptied branches one after the other. */
  method CleanAll(t: BranchTree, zs: seq<Path>) returns (ls: seq<Lookup>)
    modifies t
    ensures |ls| == |zs| && t.root == CleanedUp(old(t.root), ls) && CleanUpResolves(old(t.root), ls)
    ensures forall i | 0 <= i < |ls| :: ls[i].path == zs[i]
  {
    ghost var root0 := t.root;
    ls := [];
    for i := 0 to |zs|
      invariant |ls| == i && t.root == CleanedUp(root0, ls) && CleanUpResolves(root0, ls)
      invariant forall j | 0 <= j < i :: ls[j].path == zs[j]
    {
      var l := Lookup([], false);
      if zs[i] != [] {
        l := CleanBranch(t, zs[i]);
      }
      ResolvesSnoc(root0, ls, l);
      assert (ls + [l])[..i] == ls;
      ls := ls + [l];
    }
  }

  lemma ResolvesSnoc(e: Entry, ls: seq<Lookup>, l: Lookup)
    requires CleanUpResolves(e, ls) && (l.path != [] ==> ResolvesFromParent(CleanedUp(e, ls), l))
    ensures CleanUpResolves(e, ls + [l])
  {
    var all := ls + [l];
    forall i | 0 <= i < |all| && all[i].path != [] ensures ResolvesFromParent(CleanedUp(e, all[..i]), all[i]) {
      assert all[..i] == ls[..i];
      assert i == |ls| ==> ls[..i] == ls;
    }
  }

  /** The passes over the sync tree, one after the other; an import error ends it early. */
  method ApplyToRunning(t: BranchTree, c: Ctx, deletes: seq<Path>, config: Option<P.Element>)
    returns (ok: bool, ds: seq<Lookup>, zs: seq<Lookup>)
    requires c.level == 0
    modifies t
    ensures |ds| == |deletes| && forall i | 0 <= i < |ds| :: ds[i].path == deletes[i] && Resolves(old(t.root), deletes[i], ds[i].found)
    ensures ok <==> Overlaid(old(t.root), c, ds, config).Some?
    ensures ok ==> ListsZeros(Overlaid(old(t.root), c, ds, config).value, zs)
    ensures ok ==> CleanUpResolves(Swept(Overlaid(old(t.root), c, ds, config).value, false), zs)
    ensures ok ==> t.root == Synced(Overlaid(old(t.root), c, ds, config).value, zs)
    ensures !ok ==> t.root == MarkedUnder(old(t.root), ds)
  {
    zs := [];
    ds := MarkPaths(t, deletes);
    if config.Some? {
      var r := P.ImportElement(t.root, c, config.value, RUNNING_ENTRY);
      if r.None? {
        return false, ds, [];
      }
      t.root := r.value;
    }
    ghost var overlaid := t.root;
    var paths;
    t.root, paths := RemoveDeleted(t.root, false);
    zs := CleanAll(t, paths);
    forall z ensures Mentions(zs, z) <==> z in paths {
      if z in paths {
        var i :| 0 <= i < |paths| && paths[i] == z;
        assert zs[i].path == z;
      }
    }
    t.root := ResetFlagsWalk(t.root);
    ok := true;
  }

  /** On a tree without choices the passes meet the overlay exactly when something but defaults is
      to stay, or running was empty to begin with. */
  method ApplyWithoutChoices(t: BranchTree, c: Ctx, deletes: seq<Path>, config: Option<P.Element>) returns (ok: bool, ds: seq<Lookup>)
    requires c.level == 0 && Calm(t.root) && Southbound.ChoiceFree(t.root)
    modifies t
    ensures |ds| == |deletes| && forall i | 0 <= i < |ds| :: ds[i] == Lookup(deletes[i], At(old(t.root), deletes[i]).Some?)
    ensures ok ==> ((forall q | q != [] :: LiveAt(t.root, q, RUNNING) == Expected(old(t.root), c, ds, config, q, RUNNING))
                    <==> SomethingStays(old(t.root), c, ds, config) || forall q | q != [] :: LiveAt(old(t.root), q, RUNNING).None?)
  {
    ghost var root0 := t.root;
    var zs;
    ok, ds, zs := ApplyToRunning(t, c, deletes, config);
    forall i | 0 <= i < |ds| ensures ds[i] == Lookup(deletes[i], At(root0, deletes[i]).Some?) {
      ResolvesThere(root0, deletes[i], ds[i].found);
    }
    if ok {
      OverlaidChoiceFree(root0, c, ds, config);
      ChoiceFreeFinds(Swept(Overlaid(root0, c, ds, config).value, false), zs);
      SyncExact(root0, c, ds, config, zs);
    }
  }
}
