/** The deletes the datastore sends are aggregated: a list element whose keys go away is deleted as a
    whole (getAggregatedDeletes of pkg/tree/ops/getdeletes.go). What this does to the device. */
module Aggregation {
  import opened Base
  import opened Tree
  import opened Southbound
  import opened Convergence
  import C = Choices
  import F = ConflictFree
  import L = Leaves
  import P = Precedence

  /** p lies in a list element whose keys go away. */
  ghost predicate BelowGone(e: Entry, pl: Place, p: Path)
    decreases p
  {
    || (IsListElement(e, pl) && KeysGoAway(e, pl.keys))
    || (p != [] && p[0] in e.children && BelowGone(e.children[p[0]], Below(e, pl), p[1..]))
  }

  /** Key levels, which carry no schema, hold no value. */
  predicate KeyLevelsHoldNoValue(e: Entry) {
    && (e.schema.None? ==> e.les == [])
    && forall k | k in e.children :: KeyLevelsHoldNoValue(e.children[k])
  }

  ghost predicate AggregableTree(e: Entry) {
    ReconcilableTree(e) && KeyLevelsHoldNoValue(e) && F.KeysGuarded(e, ROOT)
  }

  /** Outside such elements, what is covered may go. */
  lemma {:induction false} CoveredMayGo(e: Entry, pl: Place, p: Path)
    requires LeavesOk(e) && NoPresenceConflict(e) && ChoiceFree(e)
    requires At(e, p).Some? && Covered(Deletes(e, pl, true), p) && !BelowGone(e, pl, p)
    ensures L.CanDelete(At(e, p).value.les)
    decreases p
  {
    ChoiceFreeActive(e, p);
    if DeletedWhole(e, pl, true) {
      ShouldDeleteLicensed(e, p);
    } else {
      assert C.Deletes(e.choices) == {};
      if p != [] {
        CoveredStep(e, pl, true, p);
        CoveredMayGo(e.children[p[0]], Below(e, pl), p[1..]);
      }
    }
  }

  /** Everything that should go is covered. */
  lemma {:induction false} ShouldGoIsCovered(e: Entry, pl: Place, p: Path)
    requires ListsHoldNoValue(e) && KeyLevelsHoldNoValue(e) && At(e, p).Some? && L.ShouldDelete(At(e, p).value.les)
    requires pl.root ==> p != []
    ensures Covered(Deletes(e, pl, true), p)
    decreases p
  {
    if DeletedWhole(e, pl, true) {
      assert [] in Deletes(e, pl, true) && [] <= p;
    } else if p != [] {
      ShouldGoIsCovered(e.children[p[0]], Below(e, pl), p[1..]);
      CoveredStep(e, pl, true, p);
    }
  }

  /** Inside such elements everything is covered. */
  lemma {:induction false} GoneIsCovered(e: Entry, pl: Place, p: Path)
    requires BelowGone(e, pl, p)
    ensures Covered(Deletes(e, pl, true), p)
    decreases p
  {
    if DeletedWhole(e, pl, true) {
      assert [] in Deletes(e, pl, true) && [] <= p;
    } else {
      GoneIsCovered(e.children[p[0]], Below(e, pl), p[1..]);
      CoveredStep(e, pl, true, p);
    }
  }

  /** And no intent survives there: who kept something would keep the keys. */
  lemma {:induction false} GoneHasNoSurvivor(e: Entry, pl: Place, p: Path)
    requires LeavesOk(e) && ChoiceFree(e) && F.KeysGuarded(e, pl) && At(e, p).Some? && BelowGone(e, pl, p)
    ensures !L.HasSurvivor(At(e, p).value.les)
    decreases p
  {
    if IsListElement(e, pl) && KeysGoAway(e, pl.keys) {
      if L.HasSurvivor(At(e, p).value.les) {
        SurvivorKeepsElement(e, pl, p);
      }
    } else {
      GoneHasNoSurvivor(e.children[p[0]], Below(e, pl), p[1..]);
    }
  }

  lemma {:induction false} SurvivorKeepsElement(e: Entry, pl: Place, p: Path)
    requires LeavesOk(e) && ChoiceFree(e) && F.KeysGuarded(e, pl) && IsListElement(e, pl)
    requires At(e, p).Some? && L.HasSurvivor(At(e, p).value.les)
    ensures !KeysGoAway(e, pl.keys)
  {
    var n := At(e, p).value;
    ChoiceFreeActive(e, p);
    var i :| 0 <= i < |n.les| && n.les[i].Survives();
    var owner := n.les[i].owner;
    assert F.SurvivesIn(n, owner) && F.SurvivesBelow(e, owner) && F.KeysKept(e, pl.keys, owner);
    var key := pl.keys[0];
    assert key in pl.keys;
    F.KeptKeyStays(e.children[key], owner);
  }

  /** Without a survivor the leaf sends nothing. */
  lemma GoneSendsNothing(les: seq<L.LeafEntry>, nonRevertive: set<string>)
    requires L.WellFormed(les) && !L.HasSurvivor(les)
    ensures P.LeafUpdate(les, nonRevertive) == None
  {
    if P.LeafUpdate(les, nonRevertive).Some? {
      F.UpdateNeedsSurvivor(les, nonRevertive);
    }
  }

  // ---------------------------------------------------------------- the device afterwards

  ghost function Aggregated(e: Entry): map<Path, Value> {
    Apply(Running(e), Deletes(e, ROOT, true), UpdateMap(e))
  }

  /** What is desired, without the list elements whose keys go away. */
  ghost function DesiredOutside(e: Entry): map<Path, Value> {
    map p | p in DesiredConfig(e) && !BelowGone(e, ROOT, p) :: DesiredConfig(e)[p]
  }

  lemma {:induction false} DeviceAt(e: Entry, p: Path)
    requires ChoiceFree(e)
    ensures Get(Aggregated(e), p) ==
            if At(e, p).None? then None
            else P.DeviceAfter(At(e, p).value.les, At(e, p).value.nonRevertive, Covered(Deletes(e, ROOT, true), p))
  {
    UpdateMapAt(e, p);
    RunningMapAt(e, p);
    ApplyAt(Running(e), Deletes(e, ROOT, true), UpdateMap(e), p);
  }

  lemma {:induction false} OutsideAt(e: Entry, p: Path)
    ensures Get(DesiredOutside(e), p) == if BelowGone(e, ROOT, p) then None else DesiredAt(e, p)
  {
    RunningMapAt(e, p);
  }

  lemma {:induction false} GoneAt(e: Entry, p: Path)
    requires AggregableTree(e) && BelowGone(e, ROOT, p)
    ensures Get(Aggregated(e), p) == None
  {
    DeviceAt(e, p);
    if At(e, p).Some? {
      var n := At(e, p).value;
      LeavesOkAt(e, p);
      GoneIsCovered(e, ROOT, p);
      GoneHasNoSurvivor(e, ROOT, p);
      GoneSendsNothing(n.les, n.nonRevertive);
    }
  }

  lemma {:induction false} OutsideReconcilesAt(e: Entry, p: Path)
    requires AggregableTree(e) && At(e, p).Some? && !BelowGone(e, ROOT, p)
    ensures Get(Aggregated(e), p) == DesiredAt(e, p) <==> P.Settled(At(e, p).value.les)
  {
    var n, covered := At(e, p).value, Covered(Deletes(e, ROOT, true), p);
    DeviceAt(e, p);
    LeavesOkAt(e, p);
    if covered {
      CoveredMayGo(e, ROOT, p);
    }
    if L.ShouldDelete(n.les) {
      ShouldGoIsCovered(e, ROOT, p);
    }
    P.LeafReconciles(n.les, n.nonRevertive, covered);
  }

  ghost predicate SettledOutside(e: Entry) {
    forall p | At(e, p).Some? && !BelowGone(e, ROOT, p) :: P.Settled(At(e, p).value.les)
  }

  lemma {:induction false} AggregatedAt(e: Entry, p: Path)
    requires AggregableTree(e)
    ensures Get(Aggregated(e), p) == Get(DesiredOutside(e), p) <==>
            (At(e, p).Some? && !BelowGone(e, ROOT, p) ==> P.Settled(At(e, p).value.les))
  {
    OutsideAt(e, p);
    if BelowGone(e, ROOT, p) {
      GoneAt(e, p);
    } else if At(e, p).Some? {
      OutsideReconcilesAt(e, p);
    } else {
      DeviceAt(e, p);
    }
  }

  /** Reconciliation with aggregated deletes: the device ends with what is desired outside the list
      elements whose keys go away, and with nothing inside them, if and only if every leaf outside
      is settled. */
  lemma {:induction false} AggregatedReconciliation(e: Entry)
    requires AggregableTree(e)
    ensures Aggregated(e) == DesiredOutside(e) <==> SettledOutside(e)
  {
    forall p ensures Get(Aggregated(e), p) == Get(DesiredOutside(e), p) <==>
                     (At(e, p).Some? && !BelowGone(e, ROOT, p) ==> P.Settled(At(e, p).value.les)) {
      AggregatedAt(e, p);
    }
    if SettledOutside(e) {
      SameMaps(Aggregated(e), DesiredOutside(e));
    }
  }

  /** What is desired and lost inside such an element is exactly what only the device holds. */
  lemma {:induction false} LostIsRunningOnly(e: Entry, p: Path)
    requires AggregableTree(e) && At(e, p).Some? && BelowGone(e, ROOT, p) && !L.HighestExplicit(At(e, p).value.les)
    ensures DesiredAt(e, p).Some? <==> L.HasRunning(At(e, p).value.les) && !L.HasIntent(At(e, p).value.les)
  {
    var les := At(e, p).value.les;
    LeavesOkAt(e, p);
    GoneHasNoSurvivor(e, ROOT, p);
    P.WinnerOwner(les);
    LostLeaf(les, At(e, p).value.nonRevertive);
  }

  lemma {:induction false} LostLeaf(les: seq<L.LeafEntry>, nonRevertive: set<string>)
    requires L.WellFormed(les) && !L.HasSurvivor(les) && !L.HighestExplicit(les)
    ensures P.Desired(les, nonRevertive).Some? <==> L.HasRunning(les) && !L.HasIntent(les)
  {
    P.WinnerOwner(les);
    if les != [] {
      L.HighestOwner(les);
      L.HighestIsFirstMin(les, |les|);
      assert L.FlagsOk(les[L.ScanPrefix(les, |les|).highest.value]);
    }
    forall i | 0 <= i < |les| && IsIntent(les[i].owner) ensures les[i].delete && !les[i].onlyIntended {
      assert !les[i].Survives();
    }
  }

  // ---------------------------------------------------------------- the next look

  lemma {:induction false} GoneQuiet(les: seq<L.LeafEntry>, nonRevertive: set<string>)
    requires L.WellFormed(les) && !L.HasSurvivor(les)
    ensures P.LeafUpdate(NextLeaf(les, None), nonRevertive) == None && !L.ShouldDelete(NextLeaf(les, None))
  {
    var next := NextLeaf(les, None);
    NextShould(les, None);
    NextWellFormed(les, None);
    if next != [] {
      var h := L.Highest(next);
      if h.owner != RUNNING {
        var j := NextMember(les, None, h);
        assert !les[j].Survives();
      }
      RunningUnsent(next, nonRevertive);
    }
  }

  lemma {:induction false} AggregatedQuietAt(e: Entry, p: Path)
    requires AggregableTree(e) && AllSettled(e) && NoneWaits(e) && At(e, p).Some?
    ensures var les := NextLeaf(At(e, p).value.les, Get(Aggregated(e), p));
            P.LeafUpdate(les, At(e, p).value.nonRevertive) == None && !L.ShouldDelete(les)
  {
    var n := At(e, p).value;
    LeavesOkAt(e, p);
    if BelowGone(e, ROOT, p) {
      GoneAt(e, p);
      GoneHasNoSurvivor(e, ROOT, p);
      GoneQuiet(n.les, n.nonRevertive);
    } else {
      SettledDown(e, p);
      OutsideReconcilesAt(e, p);
      NextNotSent(n.les, n.nonRevertive);
      NextDeleted(n.les, n.nonRevertive);
    }
  }

  /** Convergence with aggregated deletes: once they and the updates of a settled tree have been
      applied, the next look finds nothing to delete and nothing to send, unless an explicit delete
      was waiting. */
  lemma {:induction false} AggregatedConverges(e: Entry, aggregate: bool)
    requires AggregableTree(e) && AllSettled(e) && NoneWaits(e) && (aggregate ==> KeyLeafThere(e, ROOT))
    ensures Deletes(Next(e, [], Aggregated(e)), ROOT, aggregate) == {} && Updates(Next(e, [], Aggregated(e))) == {}
  {
    var next := Next(e, [], Aggregated(e));
    NextShape(e, [], Aggregated(e));
    forall p | At(next, p).Some?
      ensures !L.ShouldDelete(At(next, p).value.les)
      ensures P.LeafUpdate(At(next, p).value.les, At(next, p).value.nonRevertive) == None
    {
      NextAt(e, [], Aggregated(e), p);
      assert [] + p == p;
      AggregatedQuietAt(e, p);
    }
    NothingAnywhere(next);
    if aggregate {
      NextKeyLeafThere(e, [], Aggregated(e), ROOT);
    }
    NothingDeleted(next, ROOT, aggregate);
    forall x | x in Updates(next) ensures false {
      assert x == (x.0, x.1);
      UpdateAt(next, x.0, x.1);
    }
  }

  // ---------------------------------------------------------------- a list element that takes more along

  function OnDevice(v: string): L.LeafEntry {
    L.LeafEntry(RUNNING, RUNNING_PRIO, Value("string", v), false, false, false, false, false)
  }

  /** The key leaf's only intent is deleted; the other leaf is on the device only. */
  function GoingElement(): Entry {
    Entry(None,
          map["k" := Entry(Some(Field("string")), map[],
                           [L.LeafEntry("a", 1, Value("string", "1"), false, true, false, false, false), OnDevice("1")], map[], {}),
              "x" := Entry(Some(Field("string")), map[], [OnDevice("y")], map[], {})],
          [], map[], {})
  }

  lemma {:induction false} KeyLeafGoes()
    ensures L.ShouldDelete(GoingElement().children["k"].les)
  {
    var les := GoingElement().children["k"].les;
    assert "k"[0] != "x"[0] && |RUNNING| == 7 && |DEFAULT| == 7;
    assert les[0].owner == "a" && les[1].owner == RUNNING && IsIntent(les[0].owner);
    L.ByOwnerAt(les, 1);
    assert !les[0].Survives() && !les[1].Survives();
  }

  /** The leaf only the device holds is to stay, and goes with its element. */
  lemma {:induction false} RunningOnlyIsTakenAlong()
    ensures Deletes(GoingElement(), Place(false, ["k"], 1), true) == {[]}
    ensures P.Desired(GoingElement().children["x"].les, {}) == Some(Value("string", "y"))
  {
    KeyLeafGoes();
    assert KeysGoAway(GoingElement(), ["k"]);
    var les := GoingElement().children["x"].les;
    assert "k"[0] != "x"[0] && les == [OnDevice("y")];
    assert les[0].owner == RUNNING && L.IndexOf(les, RUNNING) == Some(0);
    assert P.IsBestLive(les, 0);
    P.WinnerIsBest(les, 0);
    assert L.Highest(les) in les;
  }
}
