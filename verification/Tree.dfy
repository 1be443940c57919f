/** The schema-shaped tree and its recursive decisions (pkg/tree/sharedEntryAttributes.go). */
module Tree {
  import opened Base
  import C = Choices
  import L = Leaves

  /** `defaults` are the default values of a container's leaves; a list keeps them below its
      last key level. */
  datatype Schema =
    | Container(keys: seq<string>, presence: bool, children: map<string, Schema>, defaults: map<string, Value>)
    | Field(typ: string)
    | LeafList

  /** One tree entry. Key levels of a list carry no schema. `nonRevertive` names the owners
      whose content is not reverted at this entry. */
  datatype Entry = Entry(
    schema: Option<Schema>, children: map<string, Entry>, les: seq<L.LeafEntry>,
    choices: map<string, C.Resolver>, nonRevertive: set<string>)

  function Keys(e: Entry): seq<string> {
    match e.schema
    case Some(Container(keys, _, _, _)) => keys
    case _ => []
  }

  function At(e: Entry, p: Path): Option<Entry>
    decreases p
  {
    if p == [] then Some(e)
    else if p[0] in e.children then At(e.children[p[0]], p[1..])
    else None
  }

  /** Names of the children a walk over active children visits. */
  ghost function Active(e: Entry): (names: set<string>)
    ensures names <= e.children.Keys
  {
    if e.schema.None? then e.children.Keys else e.children.Keys - C.Skip(e.choices)
  }

  /** The entry at p if every step to it is active. */
  ghost function ActiveAt(e: Entry, p: Path): (r: Option<Entry>)
    ensures r.Some? ==> At(e, p) == r
    decreases p
  {
    if p == [] then Some(e)
    else if p[0] in Active(e) then ActiveAt(e.children[p[0]], p[1..])
    else None
  }

  // ---------------------------------------------------------------- putting an entry in place

  function ReplaceAt(e: Entry, p: Path, n: Entry): Entry
    decreases p
  {
    if p == [] then n
    else if p[0] in e.children then e.(children := e.children[p[0] := ReplaceAt(e.children[p[0]], p[1..], n)])
    else e
  }

  lemma {:induction false} AtReplaced(e: Entry, p: Path, n: Entry)
    requires At(e, p).Some?
    ensures At(ReplaceAt(e, p, n), p) == Some(n)
    decreases p
  {
    if p != [] {
      AtReplaced(e.children[p[0]], p[1..], n);
    }
  }

  lemma {:induction false} AtChild(e: Entry, p: Path, k: string)
    requires At(e, p).Some? && k in At(e, p).value.children
    ensures At(e, p + [k]) == Some(At(e, p).value.children[k])
    decreases p
  {
    if p == [] {
      assert ([k])[1..] == [];
    } else {
      AtChild(e.children[p[0]], p[1..], k);
      assert (p + [k])[1..] == p[1..] + [k];
    }
  }

  lemma {:induction false} ReplaceInside(e: Entry, p: Path, n: Entry, k: string, m: Entry)
    requires At(e, p).Some? && k in n.children
    ensures ReplaceAt(ReplaceAt(e, p, n), p + [k], m) == ReplaceAt(e, p, n.(children := n.children[k := m]))
    decreases p
  {
    if p == [] {
      assert ([k])[1..] == [];
    } else {
      ReplaceInside(e.children[p[0]], p[1..], n, k, m);
      assert (p + [k])[1..] == p[1..] + [k];
      var c := ReplaceAt(e, p, n).children;
      var d := ReplaceAt(e.children[p[0]], p[1..], n.(children := n.children[k := m]));
      assert c[p[0] := d] == e.children[p[0] := d];
    }
  }

  lemma {:induction false} AtConcat(e: Entry, p: Path, q: Path)
    requires At(e, p).Some?
    ensures At(e, p + q) == At(At(e, p).value, q)
    decreases p
  {
    if p == [] {
      assert p + q == q;
    } else {
      AtConcat(e.children[p[0]], p[1..], q);
      assert (p + q)[1..] == p[1..] + q;
    }
  }

  // ---------------------------------------------------------------- visits, whatever way ties break

  /** Some way of breaking ties makes the child active. */
  ghost predicate MayVisit(e: Entry, k: string) {
    && k in e.children
    && (e.schema.None? ||
        forall ch | ch in e.choices && k in e.choices[ch].caseOf ::
          C.IsBestCase(e.choices[ch], C.Now, Some(e.choices[ch].caseOf[k])))
  }

  /** Every way of breaking ties makes the child active. */
  ghost predicate MustVisit(e: Entry, k: string) {
    && k in e.children
    && (e.schema.None? ||
        forall ch, best | ch in e.choices && k in e.choices[ch].caseOf && C.IsBestCase(e.choices[ch], C.Now, best) ::
          best == Some(e.choices[ch].caseOf[k]))
  }

  ghost predicate MayReach(e: Entry, p: Path)
    decreases p
  {
    p == [] || (MayVisit(e, p[0]) && MayReach(e.children[p[0]], p[1..]))
  }

  ghost predicate MustReach(e: Entry, p: Path)
    decreases p
  {
    p == [] || (MustVisit(e, p[0]) && MustReach(e.children[p[0]], p[1..]))
  }

  lemma {:induction false} MayReachAt(e: Entry, p: Path)
    requires MayReach(e, p)
    ensures At(e, p).Some?
    decreases p
  {
    if p != [] {
      MayReachAt(e.children[p[0]], p[1..]);
    }
  }

  // ---------------------------------------------------------------- decisions, uncached

  ghost predicate CanDelete(e: Entry) {
    && L.CanDelete(e.les)
    && forall k | k in Active(e) :: CanDelete(e.children[k])
  }

  ghost predicate ShouldDelete(e: Entry) {
    || L.ShouldDelete(e.les)
    || (&& L.CanDelete(e.les)
        && (if Active(e) == {} then e.choices != map[]
            else
              && (forall k | k in Active(e) :: CanDelete(e.children[k]))
              && (exists k | k in Active(e) :: ShouldDelete(e.children[k]))))
  }

  ghost predicate RemainsToExist(e: Entry) {
    || L.RemainsToExist(e.les)
    || exists k | k in Active(e) :: RemainsToExist(e.children[k])
  }

  // ---------------------------------------------------------------- well-formedness

  ghost predicate LeavesOk(e: Entry) {
    && L.WellFormed(e.les)
    && forall k | k in e.children :: LeavesOk(e.children[k])
  }

  /** A presence container that is to be deleted as a leaf while something active below stays. */
  ghost predicate PresenceConflict(e: Entry) {
    L.ShouldDelete(e.les) && exists k | k in Active(e) :: !CanDelete(e.children[k])
  }

  ghost predicate NoPresenceConflict(e: Entry) {
    && !PresenceConflict(e)
    && forall k | k in e.children :: NoPresenceConflict(e.children[k])
  }

  /** Leaf variants and children exclude each other. */
  predicate Exclusive(e: Entry) {
    && (e.les == [] || e.children == map[])
    && forall k | k in e.children :: Exclusive(e.children[k])
  }

  lemma ExclusiveHasNoConflict(e: Entry)
    requires Exclusive(e)
    ensures NoPresenceConflict(e)
  {
    forall k | k in e.children {
      ExclusiveHasNoConflict(e.children[k]);
    }
  }

  // ---------------------------------------------------------------- the decisions, told by leaves

  ghost predicate LeafMayGo(e: Entry, p: Path) {
    ActiveAt(e, p).Some? ==> L.CanDelete(ActiveAt(e, p).value.les)
  }

  /** An entry may go exactly when every leaf on the active part of it may. */
  lemma {:induction false} CanDeleteByLeaves(e: Entry)
    ensures CanDelete(e) <==> forall p :: LeafMayGo(e, p)
  {
    if CanDelete(e) {
      forall p ensures LeafMayGo(e, p) {
        if ActiveAt(e, p).Some? {
          CanDeleteBelow(e, p);
        }
      }
    }
    if forall p :: LeafMayGo(e, p) {
      assert LeafMayGo(e, []);
      forall k | k in Active(e) ensures CanDelete(e.children[k]) {
        forall p ensures LeafMayGo(e.children[k], p) {
          assert ([k] + p)[1..] == p && LeafMayGo(e, [k] + p);
        }
        CanDeleteByLeaves(e.children[k]);
      }
    }
  }

  /** A reason to send a delete: a leaf that should go, or choices of which nothing is active. */
  ghost predicate Reason(n: Entry) {
    L.ShouldDelete(n.les) || (n.choices != map[] && Active(n) == {})
  }

  ghost predicate ReasonBelow(e: Entry, p: Path) {
    ActiveAt(e, p).Some? && Reason(ActiveAt(e, p).value)
  }

  /** An entry is to be deleted exactly when its own leaf should go, or all of it may go and there is
      a reason somewhere on the active part of it. */
  lemma {:induction false} ShouldDeleteByLeaves(e: Entry)
    ensures ShouldDelete(e) <==> L.ShouldDelete(e.les) || (CanDelete(e) && exists p :: ReasonBelow(e, p))
  {
    forall k | k in Active(e) ensures ShouldDelete(e.children[k]) <==> L.ShouldDelete(e.children[k].les) || (CanDelete(e.children[k]) && exists p :: ReasonBelow(e.children[k], p)) {
      ShouldDeleteByLeaves(e.children[k]);
    }
    if ShouldDelete(e) && !L.ShouldDelete(e.les) {
      ReasonFound(e);
    }
    if CanDelete(e) && exists p :: ReasonBelow(e, p) {
      var p :| ReasonBelow(e, p);
      if p != [] {
        assert ReasonBelow(e.children[p[0]], p[1..]);
      }
    }
  }

  lemma {:induction false} ReasonFound(e: Entry)
    requires ShouldDelete(e) && !L.ShouldDelete(e.les)
    requires forall k | k in Active(e) :: ShouldDelete(e.children[k]) ==> L.ShouldDelete(e.children[k].les) || exists p :: ReasonBelow(e.children[k], p)
    ensures CanDelete(e) && exists p :: ReasonBelow(e, p)
  {
    if Active(e) == {} {
      assert ReasonBelow(e, []);
    } else {
      var k :| k in Active(e) && ShouldDelete(e.children[k]);
      var p: Path;
      if L.ShouldDelete(e.children[k].les) {
        p := [];
        assert ReasonBelow(e.children[k], p);
      } else {
        p :| ReasonBelow(e.children[k], p);
      }
      assert ([k] + p)[1..] == p;
      assert ReasonBelow(e, [k] + p);
    }
  }

  // ---------------------------------------------------------------- predicate algebra

  // These lemmas speak of calls that see the same best case of every choice, as they do without
  // ties; `Verdicts` states what holds when every call breaks ties its own way.

  /** RemainsToExist is the negation of CanDelete. */
  lemma {:induction false} RemainsIsNotCanDelete(e: Entry)
    requires LeavesOk(e)
    ensures RemainsToExist(e) <==> !CanDelete(e)
  {
    L.LeafAlgebra(e.les);
    forall k | k in Active(e) ensures RemainsToExist(e.children[k]) <==> !CanDelete(e.children[k]) {
      RemainsIsNotCanDelete(e.children[k]);
    }
  }

  /** ShouldDelete implies CanDelete at an entry exactly when the entry is not in presence conflict. */
  lemma ShouldImpliesCan(e: Entry)
    requires LeavesOk(e)
    ensures (ShouldDelete(e) ==> CanDelete(e)) <==> !PresenceConflict(e)
  {
    L.LeafAlgebra(e.les);
  }

  lemma CanDeleteBelow(e: Entry, p: Path)
    requires CanDelete(e) && ActiveAt(e, p).Some?
    ensures CanDelete(ActiveAt(e, p).value)
    decreases p
  {
    if p != [] {
      CanDeleteBelow(e.children[p[0]], p[1..]);
    }
  }

  lemma LeavesOkAt(e: Entry, p: Path)
    requires LeavesOk(e) && At(e, p).Some?
    ensures LeavesOk(At(e, p).value)
    decreases p
  {
    if p != [] {
      LeavesOkAt(e.children[p[0]], p[1..]);
    }
  }

  lemma NoConflictAt(e: Entry, p: Path)
    requires NoPresenceConflict(e) && At(e, p).Some?
    ensures NoPresenceConflict(At(e, p).value)
    decreases p
  {
    if p != [] {
      NoConflictAt(e.children[p[0]], p[1..]);
    }
  }

  /** An entry that is to be deleted takes no surviving leaf with it. */
  lemma ShouldDeleteLicensed(e: Entry, p: Path)
    requires LeavesOk(e) && NoPresenceConflict(e) && ShouldDelete(e) && ActiveAt(e, p).Some?
    ensures L.CanDelete(ActiveAt(e, p).value.les)
  {
    ShouldImpliesCan(e);
    CanDeleteBelow(e, p);
  }

  /** The failing input: a presence container whose own value is deleted while a child stays. */
  lemma PresenceConflictExample()
    ensures exists e :: LeavesOk(e) && ShouldDelete(e) && !CanDelete(e)
  {
    var run := L.LeafEntry(RUNNING, RUNNING_PRIO, Value("empty", ""), false, false, false, false, false);
    var gone := L.LeafEntry("a", 1, Value("empty", ""), false, true, false, false, false);
    var stays := L.LeafEntry("b", 2, Value("string", "x"), false, false, false, false, false);
    var child := Entry(Some(Field("string")), map[], [stays], map[], {});
    var e := Entry(Some(Container([], true, map["c" := Field("string")], map[])), map["c" := child], [gone, run], map[], {});
    assert C.Skip(e.choices) == {};
    assert "c" in Active(e);
    assert L.ScanPrefix([stays], 1) == L.Scan(Some(0), None);
    assert [stays][0].Survives();
    L.CanDeleteMeaning([stays]);
    assert !CanDelete(child);
    assert e.les[1].owner == RUNNING && e.les[0].owner == "a";
    L.ByOwnerAt(e.les, 1);
    assert IsIntent(e.les[0].owner);
    assert !L.HasSurvivor(e.les);
    assert L.ShouldDelete(e.les);
    assert LeavesOk(child);
    assert LeavesOk(e);
  }
}
