/** Deleting a branch and pruning upwards (pkg/tree/ops/deletebranch.go; CanDeleteBranch and
    DeleteCanDeleteChilds of pkg/tree/sharedEntryAttributes.go). */
module Branches {
  import opened Base
  import opened Tree
  import opened Growth
  import C = Choices
  import Lookups
  import Southbound
  import L = Leaves
  import S = LeafStore

  predicate CanDeleteBranch(e: Entry, keepDefault: bool) {
    && L.CanDeleteBranch(e.les, keepDefault)
    && forall k | k in e.children :: CanDeleteBranch(e.children[k], keepDefault)
  }

  /** The children that must stay. */
  function Pruned(e: Entry, keepDefault: bool): Entry {
    e.(children := map k | k in e.children && !CanDeleteBranch(e.children[k], keepDefault) :: e.children[k])
  }

  /** Below the branch: the owner's variants go, and every child that then may go. */
  function Purged(e: Entry, owner: string): Entry {
    e.(les := S.Removed(e.les, owner),
       children := map k | k in e.children && !CanDeleteBranch(Purged(e.children[k], owner), false) :: Purged(e.children[k], owner))
  }

  /** As long as the entry may go, its parent drops the children that hold nothing. */
  function PrunedUp(e: Entry, at: Path): Entry
    decreases |at|
  {
    if at == [] || At(e, at).None? || At(e, Up(at)).None? || !CanDeleteBranch(At(e, at).value, false) then e
    else PrunedUp(ReplaceAt(e, Up(at), Pruned(At(e, Up(at)).value, true)), Up(at))
  }

  /** Navigation goes through active children; a path it does not find is left alone. */
  function BranchDeleted(e: Entry, p: Path, owner: string, found: bool): Entry {
    if !found || At(e, p).None? then e
    else PrunedUp(ReplaceAt(e, p, Purged(At(e, p).value, owner)), p)
  }

  // ---------------------------------------------------------------- what may be lost

  /** No intent or running variant carries an explicit delete. */
  ghost predicate NoExplicit(e: Entry) {
    forall q, o | o != DEFAULT && VariantAt(e, q, o).Some? :: !VariantAt(e, q, o).value.explicitDelete
  }

  /** A variant that is on its way out anyway. */
  predicate Leaving(l: L.LeafEntry) {
    l.delete && !l.onlyIntended
  }

  /** Unchanged, or gone while it was leaving. */
  predicate Kept(before: Option<L.LeafEntry>, after: Option<L.LeafEntry>) {
    after == before || (after.None? && Leaving(before.value))
  }

  lemma VariantBelow(e: Entry, k: string, q: Path, o: string)
    requires k in e.children
    ensures VariantAt(e, [k] + q, o) == VariantAt(e.children[k], q, o)
  {
    assert ([k] + q)[1..] == q;
  }

  lemma {:induction false} NoExplicitChild(e: Entry, k: string)
    requires NoExplicit(e) && k in e.children
    ensures NoExplicit(e.children[k])
  {
    forall q, o | o != DEFAULT && VariantAt(e.children[k], q, o).Some?
      ensures !VariantAt(e.children[k], q, o).value.explicitDelete
    {
      VariantBelow(e, k, q, o);
    }
  }

  lemma NotHighestExplicit(e: Entry)
    requires L.UniqueOwners(e.les) && NoExplicit(e)
    ensures !L.HighestExplicit(e.les)
  {
    if e.les != [] {
      var h := L.Highest(e.les);
      var i :| 0 <= i < |e.les| && e.les[i] == h;
      S.ByOwnerUnique(e.les, h.owner, i);
      assert VariantAt(e, [], h.owner) == Some(h);
    }
  }

  /** Whatever a deletable branch holds is leaving, or is a default that need not be kept. */
  lemma {:induction false} DeletableIsLeaving(e: Entry, keepDefault: bool, q: Path, o: string)
    requires OwnersUnique(e) && NoExplicit(e) && CanDeleteBranch(e, keepDefault)
    requires VariantAt(e, q, o).Some? && (o != DEFAULT || keepDefault)
    ensures Leaving(VariantAt(e, q, o).value)
    decreases q
  {
    if q == [] {
      NotHighestExplicit(e);
    } else {
      NoExplicitChild(e, q[0]);
      DeletableIsLeaving(e.children[q[0]], keepDefault, q[1..], o);
    }
  }

  /** All that stays in a branch is leaving; defaults count if they are to be kept. */
  ghost predicate NothingStays(e: Entry, keepDefault: bool) {
    forall q, o | VariantAt(e, q, o).Some? && (o != DEFAULT || keepDefault) :: Leaving(VariantAt(e, q, o).value)
  }

  /** And conversely: a branch with nothing else is deletable. */
  lemma {:induction false} LeavingIsDeletable(e: Entry, keepDefault: bool)
    requires OwnersUnique(e) && NothingStays(e, keepDefault)
    ensures CanDeleteBranch(e, keepDefault)
    decreases e
  {
    forall i | 0 <= i < |e.les| && (e.les[i].owner != DEFAULT || keepDefault) ensures Leaving(e.les[i]) {
      S.ByOwnerUnique(e.les, e.les[i].owner, i);
      assert VariantAt(e, [], e.les[i].owner) == Some(e.les[i]);
    }
    forall k | k in e.children ensures CanDeleteBranch(e.children[k], keepDefault) {
      forall q, o | VariantAt(e.children[k], q, o).Some? && (o != DEFAULT || keepDefault) ensures Leaving(VariantAt(e.children[k], q, o).value) {
        VariantBelow(e, k, q, o);
      }
      LeavingIsDeletable(e.children[k], keepDefault);
    }
  }

  /** A branch may be deleted exactly when nothing stays in it. */
  lemma {:induction false} DeletableExactly(e: Entry, keepDefault: bool)
    requires OwnersUnique(e) && NoExplicit(e)
    ensures CanDeleteBranch(e, keepDefault) <==> NothingStays(e, keepDefault)
  {
    if CanDeleteBranch(e, keepDefault) {
      forall q, o | VariantAt(e, q, o).Some? && (o != DEFAULT || keepDefault) ensures Leaving(VariantAt(e, q, o).value) {
        DeletableIsLeaving(e, keepDefault, q, o);
      }
    }
    if NothingStays(e, keepDefault) {
      LeavingIsDeletable(e, keepDefault);
    }
  }

  lemma {:induction false} PrunedKeeps(e: Entry, q: Path, o: string)
    requires OwnersUnique(e) && NoExplicit(e)
    ensures OwnersUnique(Pruned(e, true)) && Kept(VariantAt(e, q, o), VariantAt(Pruned(e, true), q, o))
  {
    if q != [] && q[0] in e.children && CanDeleteBranch(e.children[q[0]], true) && VariantAt(e, q, o).Some? {
      NoExplicitChild(e, q[0]);
      DeletableIsLeaving(e.children[q[0]], true, q[1..], o);
    }
  }

  /** Purging takes the owner's variants and, of others, at most defaults and leaving ones. */
  lemma {:induction false} PurgedKeeps(e: Entry, owner: string, q: Path, o: string)
    requires OwnersUnique(e) && NoExplicit(e)
    ensures OwnersUnique(Purged(e, owner))
    ensures VariantAt(Purged(e, owner), q, o).Some? ==> VariantAt(Purged(e, owner), q, o) == VariantAt(e, q, o)
    ensures o == owner ==> VariantAt(Purged(e, owner), q, o).None?
    ensures o != owner && o != DEFAULT ==> Kept(VariantAt(e, q, o), VariantAt(Purged(e, owner), q, o))
  {
    S.RemovedPerOwner(e.les, owner, o);
    PurgedUnique(e, owner);
    if q != [] && q[0] in e.children {
      var child := e.children[q[0]];
      NoExplicitChild(e, q[0]);
      PurgedKeeps(child, owner, q[1..], o);
      PurgedNoExplicit(child, owner);
      if CanDeleteBranch(Purged(child, owner), false) && o != DEFAULT && VariantAt(Purged(child, owner), q[1..], o).Some? {
        DeletableIsLeaving(Purged(child, owner), false, q[1..], o);
      }
    }
  }

  lemma {:induction false} PurgedUnique(e: Entry, owner: string)
    requires OwnersUnique(e)
    ensures OwnersUnique(Purged(e, owner))
  {
    S.RemovedPerOwner(e.les, owner, owner);
    forall k | k in e.children ensures OwnersUnique(Purged(e.children[k], owner)) {
      PurgedUnique(e.children[k], owner);
    }
  }

  lemma {:induction false} PurgedSubset(e: Entry, owner: string, q: Path, o: string)
    requires OwnersUnique(e)
    ensures VariantAt(Purged(e, owner), q, o).Some? ==> VariantAt(Purged(e, owner), q, o) == VariantAt(e, q, o)
    decreases q
  {
    S.RemovedPerOwner(e.les, owner, o);
    if q != [] && q[0] in e.children {
      PurgedSubset(e.children[q[0]], owner, q[1..], o);
    }
  }

  lemma {:induction false} PurgedNoExplicit(e: Entry, owner: string)
    requires OwnersUnique(e) && NoExplicit(e)
    ensures NoExplicit(Purged(e, owner))
  {
    forall q, o | o != DEFAULT && VariantAt(Purged(e, owner), q, o).Some?
      ensures !VariantAt(Purged(e, owner), q, o).value.explicitDelete
    {
      PurgedSubset(e, owner, q, o);
    }
  }

  // ---------------------------------------------------------------- replacing a subtree

  lemma {:induction false} ReplacedObserved(e: Entry, p: Path, n: Entry, q: Path, o: string)
    requires At(e, p).Some?
    ensures VariantAt(ReplaceAt(e, p, n), q, o) == if p <= q then VariantAt(n, q[|p|..], o) else VariantAt(e, q, o)
    ensures p <= q ==> VariantAt(e, q, o) == VariantAt(At(e, p).value, q[|p|..], o)
    ensures OwnersUnique(e) && OwnersUnique(n) ==> OwnersUnique(ReplaceAt(e, p, n))
    decreases p
  {
    if p == [] {
      assert q[0..] == q;
    } else {
      var q' := if q == [] then [] else q[1..];
      ReplacedObserved(e.children[p[0]], p[1..], n, q', o);
      assert q != [] && q[0] == p[0] ==> (p <= q <==> p[1..] <= q') && (p <= q ==> q[|p|..] == q'[|p[1..]|..]);
    }
  }

  lemma {:induction false} SubtreeOk(e: Entry, p: Path)
    requires OwnersUnique(e) && NoExplicit(e) && At(e, p).Some?
    ensures OwnersUnique(At(e, p).value) && NoExplicit(At(e, p).value)
    decreases p
  {
    if p != [] {
      NoExplicitChild(e, p[0]);
      SubtreeOk(e.children[p[0]], p[1..]);
    }
  }

  // ---------------------------------------------------------------- the whole deletion

  lemma PruneAtKeeps(e: Entry, p: Path, q: Path, o: string)
    requires OwnersUnique(e) && NoExplicit(e) && At(e, p).Some?
    ensures var e' := ReplaceAt(e, p, Pruned(At(e, p).value, true));
            OwnersUnique(e') && Kept(VariantAt(e, q, o), VariantAt(e', q, o))
  {
    SubtreeOk(e, p);
    ReplacedObserved(e, p, Pruned(At(e, p).value, true), q, o);
    PrunedKeeps(At(e, p).value, if p <= q then q[|p|..] else [], o);
  }

  lemma PruneAtNoExplicit(e: Entry, p: Path)
    requires OwnersUnique(e) && NoExplicit(e) && At(e, p).Some?
    ensures NoExplicit(ReplaceAt(e, p, Pruned(At(e, p).value, true)))
  {
    forall q, o | o != DEFAULT ensures Kept(VariantAt(e, q, o), VariantAt(ReplaceAt(e, p, Pruned(At(e, p).value, true)), q, o)) {
      PruneAtKeeps(e, p, q, o);
    }
  }

  /** Pruning upwards loses nothing but leaving variants, defaults included. */
  lemma {:induction false} PrunedUpKeeps(e: Entry, at: Path, q: Path, o: string)
    requires OwnersUnique(e) && NoExplicit(e)
    ensures OwnersUnique(PrunedUp(e, at)) && Kept(VariantAt(e, q, o), VariantAt(PrunedUp(e, at), q, o))
    decreases |at|
  {
    if !(at == [] || At(e, at).None? || At(e, Up(at)).None? || !CanDeleteBranch(At(e, at).value, false)) {
      var e' := ReplaceAt(e, Up(at), Pruned(At(e, Up(at)).value, true));
      PruneAtKeeps(e, Up(at), q, o);
      PruneAtNoExplicit(e, Up(at));
      PrunedUpKeeps(e', Up(at), q, o);
    }
  }

  lemma PurgeAt(e: Entry, p: Path, owner: string, q: Path, o: string)
    requires OwnersUnique(e) && NoExplicit(e) && At(e, p).Some?
    ensures var e' := ReplaceAt(e, p, Purged(At(e, p).value, owner));
            && OwnersUnique(e')
            && (VariantAt(e', q, o).Some? ==> VariantAt(e', q, o) == VariantAt(e, q, o))
            && (p <= q && o == owner ==> VariantAt(e', q, o).None?)
            && (p <= q && o != owner && o != DEFAULT ==> Kept(VariantAt(e, q, o), VariantAt(e', q, o)))
            && (!(p <= q) ==> VariantAt(e', q, o) == VariantAt(e, q, o))
  {
    SubtreeOk(e, p);
    ReplacedObserved(e, p, Purged(At(e, p).value, owner), q, o);
    PurgedKeeps(At(e, p).value, owner, if p <= q then q[|p|..] else [], o);
  }

  lemma PurgeAtNoExplicit(e: Entry, p: Path, owner: string)
    requires OwnersUnique(e) && NoExplicit(e) && At(e, p).Some?
    ensures NoExplicit(ReplaceAt(e, p, Purged(At(e, p).value, owner)))
  {
    var e' := ReplaceAt(e, p, Purged(At(e, p).value, owner));
    forall q, o | o != DEFAULT && VariantAt(e', q, o).Some? ensures !VariantAt(e', q, o).value.explicitDelete {
      PurgeAt(e, p, owner, q, o);
    }
  }

  /** Branch deletion: below a path that is found no variant of the owner is left; any other
      owner's variant, anywhere, and any variant at all outside the branch, defaults included, is
      still there unless it was leaving anyway. */
  lemma BranchDeletionConserves(e: Entry, p: Path, owner: string, found: bool, q: Path, o: string)
    requires OwnersUnique(e) && NoExplicit(e)
    ensures var e' := BranchDeleted(e, p, owner, found);
            && OwnersUnique(e')
            && (VariantAt(e', q, o).Some? ==> VariantAt(e', q, o) == VariantAt(e, q, o))
            && (found && p <= q && o == owner ==> VariantAt(e', q, o).None?)
            && (p <= q && o != owner && o != DEFAULT ==> Kept(VariantAt(e, q, o), VariantAt(e', q, o)))
            && (!(p <= q) ==> Kept(VariantAt(e, q, o), VariantAt(e', q, o)))
  {
    if found && At(e, p).Some? {
      PurgeAt(e, p, owner, q, o);
      PurgeAtNoExplicit(e, p, owner);
      PrunedUpKeeps(ReplaceAt(e, p, Purged(At(e, p).value, owner)), p, q, o);
    } else if found && p <= q {
      AbsentBelow(e, p, q);
    }
  }

  // ---------------------------------------------------------------- emptied parents go

  lemma {:induction false} FewerKept(e: Entry, keepDefault: bool)
    requires CanDeleteBranch(e, keepDefault)
    ensures CanDeleteBranch(e, false)
  {
    forall k | k in e.children ensures CanDeleteBranch(e.children[k], false) {
      FewerKept(e.children[k], keepDefault);
    }
  }

  lemma {:induction false} DeletableBelow(e: Entry, keepDefault: bool, r: Path)
    requires CanDeleteBranch(e, keepDefault) && At(e, r).Some?
    ensures CanDeleteBranch(At(e, r).value, keepDefault)
    decreases r
  {
    if r != [] {
      DeletableBelow(e.children[r[0]], keepDefault, r[1..]);
    }
  }

  /** An entry that holds something keeps every entry above it. */
  lemma {:induction false} HolderKeepsAbove(e: Entry, a: Path, at: Path)
    requires a <= at && At(e, at).Some? && !CanDeleteBranch(At(e, at).value, false)
    ensures At(e, a).Some? && !CanDeleteBranch(At(e, a).value, true)
    decreases a
  {
    if a == [] {
      if CanDeleteBranch(e, true) {
        FewerKept(e, true);
        DeletableBelow(e, false, at);
      }
    } else {
      HolderKeepsAbove(e.children[a[0]], a[1..], at[1..]);
    }
  }

  lemma {:induction false} PrunedAt(e: Entry, p: Path, q: Path)
    requires At(e, p).Some? && p < q
    ensures var after := At(ReplaceAt(e, p, Pruned(At(e, p).value, true)), q);
            && (after == At(e, q) || after.None?)
            && (|q| == |p| + 1 && after.Some? ==> !CanDeleteBranch(after.value, true))
    decreases p
  {
    if p == [] {
      assert q == [q[0]] + q[1..];
    } else {
      PrunedAt(e.children[p[0]], p[1..], q[1..]);
    }
  }

  /** Pruning upwards from an entry leaves what is below it as it is, or takes it along. */
  lemma {:induction false} PrunedUpAt(e: Entry, at: Path, q: Path)
    requires at < q
    ensures At(PrunedUp(e, at), q) == At(e, q) || At(PrunedUp(e, at), q).None?
    decreases |at|
  {
    if !(at == [] || At(e, at).None? || At(e, Up(at)).None? || !CanDeleteBranch(At(e, at).value, false)) {
      assert Up(at) < q;
      PrunedAt(e, Up(at), q);
      PrunedUpAt(ReplaceAt(e, Up(at), Pruned(At(e, Up(at)).value, true)), Up(at), q);
    }
  }

  /** Pruned upwards from `at`, no entry on the way but the root is left that holds nothing. */
  lemma {:induction false} PrunedUpEmpties(e: Entry, at: Path, a: Path)
    requires At(e, at).Some? && a <= at && a != [] && At(PrunedUp(e, at), a).Some?
    ensures !CanDeleteBranch(At(PrunedUp(e, at), a).value, true)
    decreases |at|
  {
    ParentThere(e, at);
    if CanDeleteBranch(At(e, at).value, false) {
      var up := Up(at);
      var e' := ReplaceAt(e, up, Pruned(At(e, up).value, true));
      AtReplaced(e, up, Pruned(At(e, up).value, true));
      if a == at {
        PrunedAt(e, up, at);
        PrunedUpAt(e', up, at);
      } else {
        assert a <= up;
        PrunedUpEmpties(e', up, a);
      }
    } else {
      HolderKeepsAbove(e, a, at);
    }
  }

  /** After a branch is deleted neither its entry nor one above it, but the root, is left that holds
      nothing: what is left there holds something that stays, be it a default. */
  lemma {:induction false} EmptiedParentsGo(e: Entry, p: Path, owner: string, a: Path)
    requires At(e, p).Some? && a <= p && a != [] && At(BranchDeleted(e, p, owner, true), a).Some?
    ensures !CanDeleteBranch(At(BranchDeleted(e, p, owner, true), a).value, true)
  {
    var n := Purged(At(e, p).value, owner);
    AtReplaced(e, p, n);
    PrunedUpEmpties(ReplaceAt(e, p, n), p, a);
  }

  /** Below the branch's entry nothing is left that holds nothing but defaults. */
  lemma {:induction false} EmptiedBelowGo(e: Entry, owner: string, q: Path)
    requires q != [] && At(Purged(e, owner), q).Some?
    ensures !CanDeleteBranch(At(Purged(e, owner), q).value, false)
    decreases q
  {
    if |q| == 1 {
      assert q[1..] == [];
    } else {
      EmptiedBelowGo(e.children[q[0]], owner, q[1..]);
    }
  }

  /** An entry that holds nothing but a default is left, although it may be deleted with it. */
  lemma {:induction false} DefaultKeepsParent()
    ensures var x := Entry(None, map[], [L.LeafEntry("a", 1, Value("string", "v"), false, false, false, false, false)], map[], {});
            var d := Entry(None, map[], [L.LeafEntry(DEFAULT, DEFAULT_PRIO, Value("string", "d"), false, false, false, false, false)], map[], {});
            var root := Entry(None, map["c" := Entry(None, map["x" := x, "d" := d], [], map[], {})], [], map[], {});
            var after := BranchDeleted(root, ["c", "x"], "a", true);
            At(after, ["c"]).Some? && CanDeleteBranch(At(after, ["c"]).value, false)
  {
    var l := L.LeafEntry("a", 1, Value("string", "v"), false, false, false, false, false);
    var x := Entry(None, map[], [l], map[], {});
    var d := Entry(None, map[], [L.LeafEntry(DEFAULT, DEFAULT_PRIO, Value("string", "d"), false, false, false, false, false)], map[], {});
    var c := Entry(None, map["x" := x, "d" := d], [], map[], {});
    var root := Entry(None, map["c" := c], [], map[], {});
    assert "x"[0] != "d"[0];
    assert ["c", "x"][1..] == ["x"] && ["x"][1..] == [] && ["c"][1..] == [] && Up(["c", "x"]) == ["c"] && Up(["c"]) == [];
    assert S.Removed([l], "a") == [];
    var gone := Purged(x, "a");
    assert gone == x.(les := []);
    var c1 := c.(children := c.children["x" := gone]);
    var root1 := ReplaceAt(root, ["c", "x"], gone);
    assert root1.children["c"] == c1;
    assert CanDeleteBranch(gone, true);
    assert d.les[0].owner == DEFAULT && L.Highest(d.les) in d.les;
    assert !CanDeleteBranch(d, true) && CanDeleteBranch(d, false);
    var c2 := Pruned(c1, true);
    assert c2.children == map["d" := d];
    var root2 := ReplaceAt(root1, ["c"], c2);
    assert "d" in c2.children && c2.children["d"] == d;
    assert root2.children["c"] == c2 && CanDeleteBranch(c2, false);
    assert !CanDeleteBranch(c2, true);
    var root3 := ReplaceAt(root2, [], Pruned(root2, true));
    assert root3.children["c"] == c2;
    assert PrunedUp(root1, ["c", "x"]) == PrunedUp(root2, ["c"]) == PrunedUp(root3, []) == root3;
  }

  // ---------------------------------------------------------------- when a path is found

  /** What navigating p from e may answer, depending on how ties between cases break. */
  ghost predicate Resolves(e: Entry, p: Path, found: bool) {
    if found then MayReach(e, p) else !MustReach(e, p)
  }

  /** Without ties a path is found exactly when it is actively reachable. */
  lemma ResolvesActive(e: Entry, p: Path, found: bool)
    requires Lookups.NoTies(e)
    ensures Resolves(e, p, found) <==> found == ActiveAt(e, p).Some?
  {
    Lookups.OneWayDown(e, p);
  }

  /** Without choices a path is found exactly when it is there. */
  lemma {:induction false} ResolvesThere(e: Entry, p: Path, found: bool)
    requires Southbound.ChoiceFree(e)
    ensures Resolves(e, p, found) <==> found == At(e, p).Some?
    decreases p
  {
    if p != [] && p[0] in e.children {
      ResolvesThere(e.children[p[0]], p[1..], true);
      ResolvesThere(e.children[p[0]], p[1..], false);
    }
  }

  /** The owner holds something at or below p. */
  ghost predicate HoldsBelow(e: Entry, p: Path, owner: string) {
    exists q :: p <= q && VariantAt(e, q, owner).Some?
  }

  /** The owner holds nothing below the path afterwards if and only if the path is found, without
      ties: actively reachable, or the owner held nothing there before. */
  lemma BranchDeletionExact(e: Entry, p: Path, owner: string, found: bool)
    requires OwnersUnique(e) && NoExplicit(e) && Lookups.NoTies(e) && Resolves(e, p, found)
    ensures !HoldsBelow(BranchDeleted(e, p, owner, found), p, owner) <==> ActiveAt(e, p).Some? || !HoldsBelow(e, p, owner)
  {
    ResolvesActive(e, p, found);
    var e' := BranchDeleted(e, p, owner, found);
    if found {
      forall q | p <= q ensures VariantAt(e', q, owner).None? {
        BranchDeletionConserves(e, p, owner, found, q, owner);
      }
    }
  }

  /** Case "A" beats case "B". */
  function Lost(): C.Resolver {
    C.Resolver(map["A" := {"a"}, "B" := {"b"}], map["a" := "A", "b" := "B"],
               map["a" := C.ElemPrio(5, 5), "b" := C.ElemPrio(9, 9)])
  }

  lemma LostCase()
    ensures C.IsBestCase(Lost(), C.Now, Some("A")) && !C.IsBestCase(Lost(), C.Now, Some("B"))
  {
    var r := Lost();
    assert "A"[0] != "B"[0] && "a"[0] != "b"[0];
    C.SingletonCase(r, "A", "a", C.Now);
    C.SingletonCase(r, "B", "b", C.Now);
    assert r.cases.Keys == {"A", "B"};
  }

  /** The failing input: deleting a branch of the case that lost leaves it as it is. */
  lemma InactiveBranchStays(owner: string, found: bool)
    ensures var leaf := Entry(Some(Field("string")), map[],
                              [L.LeafEntry(owner, 9, Value("string", "x"), false, false, false, false, false)], map[], {});
            var e := Entry(Some(Container([], false, map["b" := Field("string")], map[])),
                           map["b" := leaf], [], map["choice" := Lost()], {});
            Resolves(e, ["b"], found) ==> BranchDeleted(e, ["b"], owner, found) == e && HoldsBelow(e, ["b"], owner)
  {
    var leaf := Entry(Some(Field("string")), map[],
                      [L.LeafEntry(owner, 9, Value("string", "x"), false, false, false, false, false)], map[], {});
    var e := Entry(Some(Container([], false, map["b" := Field("string")], map[])),
                   map["b" := leaf], [], map["choice" := Lost()], {});
    LostCase();
    assert "choice" in e.choices && "b" in e.choices["choice"].caseOf;
    assert !MayVisit(e, "b") && ["b"][0] == "b";
    assert ["b"][1..] == [] && VariantAt(e, ["b"], owner) == Some(leaf.les[0]);
  }

  lemma {:induction false} AbsentBelow(e: Entry, p: Path, q: Path)
    requires At(e, p).None? && p <= q
    ensures At(e, q).None?
    decreases p
  {
    if p[0] in e.children {
      AbsentBelow(e.children[p[0]], p[1..], q[1..]);
    }
  }

  lemma BranchDeletionNoExplicit(e: Entry, p: Path, owner: string, found: bool)
    requires OwnersUnique(e) && NoExplicit(e)
    ensures NoExplicit(BranchDeleted(e, p, owner, found))
  {
    var e' := BranchDeleted(e, p, owner, found);
    forall q, o | o != DEFAULT && VariantAt(e', q, o).Some? ensures !VariantAt(e', q, o).value.explicitDelete {
      BranchDeletionConserves(e, p, owner, found, q, o);
    }
  }

  // ---------------------------------------------------------------- in place

  /** The read-only walk over all children. */
  method CanDeleteBranchWalk(e: Entry, keepDefault: bool) returns (ok: bool)
    ensures ok == CanDeleteBranch(e, keepDefault)
    decreases e
  {
    if !L.CanDeleteBranch(e.les, keepDefault) {
      return false;
    }
    var todo := e.children.Keys;
    while todo != {}
      invariant todo <= e.children.Keys
      invariant forall k | k in e.children && k !in todo :: CanDeleteBranch(e.children[k], keepDefault)
      decreases todo
    {
      var k :| k in todo;
      var sub := CanDeleteBranchWalk(e.children[k], keepDefault);
      if !sub {
        return false;
      }
      todo := todo - {k};
    }
    return true;
  }

  /** deleteBranchInternal: purges the children one by one, dropping those that may go. */
  method Purge(e: Entry, owner: string) returns (r: Entry)
    ensures r == Purged(e, owner)
    decreases e
  {
    var kept: map<string, Entry> := map[];
    var todo := e.children.Keys;
    while todo != {}
      invariant todo <= e.children.Keys
      invariant forall k :: k in kept <==> k in e.children && k !in todo && !CanDeleteBranch(Purged(e.children[k], owner), false)
      invariant forall k | k in kept :: kept[k] == Purged(e.children[k], owner)
      decreases todo
    {
      var k :| k in todo;
      var child := Purge(e.children[k], owner);
      var gone := CanDeleteBranchWalk(child, false);
      if !gone {
        kept := kept[k := child];
      }
      todo := todo - {k};
    }
    assert kept == Purged(e, owner).children;
    r := e.(les := S.Removed(e.les, owner), children := kept);
  }

  /** DeleteCanDeleteChilds. */
  method PruneChilds(e: Entry, keepDefault: bool) returns (r: Entry)
    ensures r == Pruned(e, keepDefault)
  {
    var kept: map<string, Entry> := map[];
    var todo := e.children.Keys;
    while todo != {}
      invariant todo <= e.children.Keys
      invariant forall k :: k in kept <==> k in e.children && k !in todo && !CanDeleteBranch(e.children[k], keepDefault)
      invariant forall k | k in kept :: kept[k] == e.children[k]
      decreases todo
    {
      var k :| k in todo;
      var gone := CanDeleteBranchWalk(e.children[k], keepDefault);
      if !gone {
        kept := kept[k := e.children[k]];
      }
      todo := todo - {k};
    }
    assert kept == Pruned(e, keepDefault).children;
    r := e.(children := kept);
  }

  lemma {:induction false} ParentThere(e: Entry, p: Path)
    requires p != [] && At(e, p).Some?
    ensures At(e, Up(p)).Some?
    decreases p
  {
    if |p| > 1 {
      ParentThere(e.children[p[0]], p[1..]);
      assert Up(p)[1..] == Up(p[1..]);
    }
  }

  /** A tree changed in place. */
  class BranchTree {
    var root: Entry

    constructor (e: Entry)
      ensures root == e
    {
      root := e;
    }

    /** Navigates from the entry at `at`, deletes the branch it finds, then walks the entry
        upwards; the walk ends at the root at the latest. */
    method DeleteBranch(at: Path, rel: Path, owner: string) returns (found: bool)
      requires At(root, at).Some?
      modifies this
      ensures Resolves(At(old(root), at).value, rel, found)
      ensures root == BranchDeleted(old(root), at + rel, owner, found)
    {
      found := Navigate(At(root, at).value, rel);
      if !found {
        return;
      }
      ghost var root0 := root;
      MayReachAt(At(root, at).value, rel);
      AtConcat(root, at, rel);
      var p := at + rel;
      var branch := Purge(At(root, p).value, owner);
      root := ReplaceAt(root, p, branch);
      AtReplaced(root0, p, branch);
      ghost var purged := root;
      var here := p;
      var gone := CanDeleteBranchWalk(branch, false);
      while gone && here != []
        invariant At(root, here).Some? && gone == CanDeleteBranch(At(root, here).value, false)
        invariant PrunedUp(root, here) == PrunedUp(purged, p)
        decreases |here|
      {
        ParentThere(root, here);
        var parent := PruneChilds(At(root, Up(here)).value, true);
        AtReplaced(root, Up(here), parent);
        root := ReplaceAt(root, Up(here), parent);
        here := Up(here);
        gone := CanDeleteBranchWalk(parent, false);
      }
    }
  }

  /** Navigation through active children, resolving the choices anew at every step. */
  method Navigate(e: Entry, p: Path) returns (found: bool)
    ensures Resolves(e, p, found)
    decreases p
  {
    if p == [] {
      return true;
    }
    var names, _ := Lookups.ActiveNames(e);
    if p[0] !in names {
      return false;
    }
    found := Navigate(e.children[p[0]], p[1..]);
  }

  // ---------------------------------------------------------------- trees without choices stay so

  lemma {:induction false} ReplaceChoiceFree(e: Entry, p: Path, n: Entry)
    requires Southbound.ChoiceFree(e) && Southbound.ChoiceFree(n)
    ensures Southbound.ChoiceFree(ReplaceAt(e, p, n))
    decreases p
  {
    if p != [] && p[0] in e.children {
      ReplaceChoiceFree(e.children[p[0]], p[1..], n);
    }
  }

  lemma {:induction false} SubtreeChoiceFree(e: Entry, p: Path)
    requires Southbound.ChoiceFree(e) && At(e, p).Some?
    ensures Southbound.ChoiceFree(At(e, p).value)
    decreases p
  {
    if p != [] {
      SubtreeChoiceFree(e.children[p[0]], p[1..]);
    }
  }

  lemma {:induction false} PurgedChoiceFree(e: Entry, owner: string)
    requires Southbound.ChoiceFree(e)
    ensures Southbound.ChoiceFree(Purged(e, owner))
  {
    forall k | k in e.children ensures Southbound.ChoiceFree(Purged(e.children[k], owner)) {
      PurgedChoiceFree(e.children[k], owner);
    }
  }

  lemma {:induction false} PrunedUpChoiceFree(e: Entry, at: Path)
    requires Southbound.ChoiceFree(e)
    ensures Southbound.ChoiceFree(PrunedUp(e, at))
    decreases |at|
  {
    if !(at == [] || At(e, at).None? || At(e, Up(at)).None? || !CanDeleteBranch(At(e, at).value, false)) {
      SubtreeChoiceFree(e, Up(at));
      ReplaceChoiceFree(e, Up(at), Pruned(At(e, Up(at)).value, true));
      PrunedUpChoiceFree(ReplaceAt(e, Up(at), Pruned(At(e, Up(at)).value, true)), Up(at));
    }
  }

  lemma BranchDeletedChoiceFree(e: Entry, p: Path, owner: string, found: bool)
    requires Southbound.ChoiceFree(e)
    ensures Southbound.ChoiceFree(BranchDeleted(e, p, owner, found))
  {
    if found && At(e, p).Some? {
      SubtreeChoiceFree(e, p);
      PurgedChoiceFree(At(e, p).value, owner);
      ReplaceChoiceFree(e, p, Purged(At(e, p).value, owner));
      PrunedUpChoiceFree(ReplaceAt(e, p, Purged(At(e, p).value, owner)), p);
    }
  }
}
