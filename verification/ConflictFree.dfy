/** What keeps a list element with updates below it from being deleted by its keys. */
module ConflictFree {
  import opened Base
  import opened Tree
  import opened Southbound
  import C = Choices
  import L = Leaves
  import P = Precedence

  ghost predicate ResolversOk(e: Entry) {
    && (forall ch | ch in e.choices :: C.Valid(e.choices[ch]))
    && (e.choices != map[] ==> e.schema.Some?)
    && forall k | k in e.children :: ResolversOk(e.children[k])
  }

  ghost predicate SurvivesIn(e: Entry, owner: string) {
    exists i | 0 <= i < |e.les| :: e.les[i].owner == owner && e.les[i].Survives()
  }

  /** Owners with a surviving variant at or below e, over active children. */
  ghost predicate SurvivesBelow(e: Entry, owner: string) {
    exists p :: ActiveAt(e, p).Some? && SurvivesIn(ActiveAt(e, p).value, owner)
  }

  /** A key leaf is a plain leaf on which no explicit delete wins. */
  ghost predicate PlainLeaf(e: Entry) {
    e.children == map[] && e.choices == map[] && !L.HighestExplicit(e.les)
  }

  /** Whoever keeps something below a list element keeps every key leaf of that element. */
  ghost predicate KeysGuarded(e: Entry, at: Place) {
    && (IsListElement(e, at) ==>
          forall owner | SurvivesBelow(e, owner) :: KeysKept(e, at.keys, owner))
    && forall k | k in e.children :: KeysGuarded(e.children[k], Below(e, at))
  }

  ghost predicate KeysKept(e: Entry, keys: seq<string>, owner: string) {
    forall n | n in keys :: n in e.children && PlainLeaf(e.children[n]) && SurvivesIn(e.children[n], owner)
  }

  /** A leaf that sends an update has a surviving intent. */
  lemma UpdateNeedsSurvivor(les: seq<L.LeafEntry>, nonRevertive: set<string>)
    requires L.WellFormed(les) && P.LeafUpdate(les, nonRevertive).Some?
    ensures !L.CanDelete(les) && L.HasSurvivor(les)
  {
    L.CanDeleteMeaning(les);
    L.HighestOwner(les);
    var h := L.ScanPrefix(les, |les|).highest.value;
    assert L.FlagsOk(les[h]) && L.PrioOk(les[h]);
  }

  lemma KeptKeyStays(e: Entry, owner: string)
    requires LeavesOk(e) && PlainLeaf(e) && SurvivesIn(e, owner)
    ensures !ShouldDelete(e)
  {
    L.CanDeleteMeaning(e.les);
    assert Active(e) == {};
  }

  /** A guarded list element with something to update below it is not deleted as a whole. */
  lemma GuardedElementStays(e: Entry, at: Place, p: Path)
    requires LeavesOk(e) && KeysGuarded(e, at) && IsListElement(e, at)
    requires ActiveAt(e, p).Some? && P.LeafUpdate(ActiveAt(e, p).value.les, ActiveAt(e, p).value.nonRevertive).Some?
    ensures !KeysGoAway(e, at.keys)
  {
    var n := ActiveAt(e, p).value;
    LeavesOkAt(e, p);
    UpdateNeedsSurvivor(n.les, n.nonRevertive);
    var i :| 0 <= i < |n.les| && n.les[i].Survives();
    var owner := n.les[i].owner;
    assert SurvivesIn(n, owner);
    assert SurvivesBelow(e, owner);
    assert KeysKept(e, at.keys, owner);
    var key := at.keys[0];
    assert key in at.keys;
    KeptKeyStays(e.children[key], owner);
  }
}
