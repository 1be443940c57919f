/** What is sent to the device: the deletes (pkg/tree/ops/getdeletes.go) and the updates
    (pkg/tree/ops/gethighestprecedence.go) of a finished tree. */
module Southbound {
  import opened Base
  import opened Tree
  import C = Choices
  import L = Leaves
  import P = Precedence

  /** Where an entry sits relative to the nearest ancestor with a schema: that ancestor's list
      keys and how many levels above it is. */
  datatype Place = Place(root: bool, keys: seq<string>, level: nat)

  function Below(e: Entry, at: Place): Place {
    if e.schema.Some? then Place(false, Keys(e), 1) else Place(false, at.keys, at.level + 1)
  }

  const ROOT := Place(true, [], 0)

  /** Last key level of a list: the place of a whole list element. */
  predicate IsListElement(e: Entry, at: Place) {
    e.schema.None? && at.keys != [] && at.level == |at.keys|
  }

  /** All key leaves that exist are to be deleted; a missing key leaf does not object. */
  ghost predicate KeysGoAway(e: Entry, keys: seq<string>) {
    forall n | n in keys && n in e.children :: ShouldDelete(e.children[n])
  }

  ghost predicate DeletedWhole(e: Entry, at: Place, aggregate: bool) {
    if aggregate && IsListElement(e, at) then KeysGoAway(e, at.keys)
    else ShouldDelete(e) && !at.root && Keys(e) == []
  }

  ghost function ChoiceDeletes(e: Entry, at: Place, aggregate: bool): set<Path> {
    if aggregate && IsListElement(e, at) then {} else set el | el in C.Deletes(e.choices) :: [el]
  }

  /** Paths, relative to e, that are deleted on the device. */
  ghost function Deletes(e: Entry, at: Place, aggregate: bool): set<Path> {
    if DeletedWhole(e, at, aggregate) then {[]}
    else
      ChoiceDeletes(e, at, aggregate) +
      set k, p | k in e.children && p in Deletes(e.children[k], Below(e, at), aggregate) :: [k] + p
  }

  /** Paths, relative to e, and the variants sent for them. */
  ghost function Updates(e: Entry): set<(Path, L.LeafEntry)> {
    (match P.LeafUpdate(e.les, e.nonRevertive) case None => {} case Some(u) => {([], u)}) +
    set k, q | k in Active(e) && q in Updates(e.children[k]) :: ([k] + q.0, q.1)
  }

  ghost predicate Covered(dels: set<Path>, p: Path) {
    exists d :: d in dels && d <= p
  }

  lemma {:induction false} CoveredStep(e: Entry, at: Place, aggregate: bool, p: Path)
    requires !DeletedWhole(e, at, aggregate) && p != []
    ensures Covered(Deletes(e, at, aggregate), p) <==>
            || Covered(ChoiceDeletes(e, at, aggregate), p)
            || (p[0] in e.children && Covered(Deletes(e.children[p[0]], Below(e, at), aggregate), p[1..]))
  {
    var here, below := ChoiceDeletes(e, at, aggregate), ChildDeletes(e, at, aggregate);
    assert Deletes(e, at, aggregate) == here + below;
    CoveredUnion(here, below, p);
    ChildCovered(e, at, aggregate, p);
  }

  ghost function ChildDeletes(e: Entry, at: Place, aggregate: bool): set<Path> {
    set k, p | k in e.children && p in Deletes(e.children[k], Below(e, at), aggregate) :: [k] + p
  }

  lemma CoveredUnion(a: set<Path>, b: set<Path>, p: Path)
    ensures Covered(a + b, p) <==> Covered(a, p) || Covered(b, p)
  {
  }

  lemma {:induction false} ChildCovered(e: Entry, at: Place, aggregate: bool, p: Path)
    requires p != []
    ensures Covered(ChildDeletes(e, at, aggregate), p) <==>
            p[0] in e.children && Covered(Deletes(e.children[p[0]], Below(e, at), aggregate), p[1..])
  {
    if Covered(ChildDeletes(e, at, aggregate), p) {
      var d :| d in ChildDeletes(e, at, aggregate) && d <= p;
      CoverComesFromChild(e, at, aggregate, p, d);
    }
    if p[0] in e.children && Covered(Deletes(e.children[p[0]], Below(e, at), aggregate), p[1..]) {
      var q :| q in Deletes(e.children[p[0]], Below(e, at), aggregate) && q <= p[1..];
      CoverOfChild(e, at, aggregate, p, q);
    }
  }

  lemma {:induction false} CoverComesFromChild(e: Entry, at: Place, aggregate: bool, p: Path, d: Path)
    requires p != [] && d in ChildDeletes(e, at, aggregate) && d <= p
    ensures p[0] in e.children && Covered(Deletes(e.children[p[0]], Below(e, at), aggregate), p[1..])
  {
    var k, q :| k in e.children && q in Deletes(e.children[k], Below(e, at), aggregate) && d == [k] + q;
    PrefixBelow(p, k, q);
  }

  lemma PrefixBelow(p: Path, k: string, q: Path)
    requires p != []
    ensures [k] + q <= p <==> p[0] == k && q <= p[1..]
  {
    if [k] + q <= p {
      assert ([k] + q)[1..] == q && ([k] + q)[0] == k;
    }
  }

  lemma {:induction false} CoverOfChild(e: Entry, at: Place, aggregate: bool, p: Path, q: Path)
    requires p != [] && p[0] in e.children && q in Deletes(e.children[p[0]], Below(e, at), aggregate) && q <= p[1..]
    ensures Covered(ChildDeletes(e, at, aggregate), p)
  {
    PrefixBelow(p, p[0], q);
    assert [p[0]] + q in ChildDeletes(e, at, aggregate);
  }

  /** An update is sent for a path exactly when its entry is actively reachable and its leaf sends one. */
  lemma {:induction false} UpdateAt(e: Entry, p: Path, u: L.LeafEntry)
    ensures (p, u) in Updates(e) <==>
            ActiveAt(e, p).Some? && P.LeafUpdate(ActiveAt(e, p).value.les, ActiveAt(e, p).value.nonRevertive) == Some(u)
    decreases p
  {
    if p != [] {
      if p[0] in Active(e) {
        UpdateAt(e.children[p[0]], p[1..], u);
        assert p == [p[0]] + p[1..];
      }
      if (p, u) in Updates(e) {
        var k, q :| k in Active(e) && q in Updates(e.children[k]) && (p, u) == ([k] + q.0, q.1);
        assert p[0] == k && p[1..] == q.0;
        assert q == (p[1..], u);
      }
      if p[0] in Active(e) && (p[1..], u) in Updates(e.children[p[0]]) {
        var q := (p[1..], u);
        assert ([p[0]] + q.0, q.1) in Updates(e);
      }
    }
  }

  // ---------------------------------------------------------------- reconciliation

  ghost predicate ChoiceFree(e: Entry) {
    && e.choices == map[]
    && forall k | k in e.children :: ChoiceFree(e.children[k])
  }

  /** Lists hold their values below their key levels only. */
  predicate ListsHoldNoValue(e: Entry) {
    && (Keys(e) != [] ==> e.les == [])
    && forall k | k in e.children :: ListsHoldNoValue(e.children[k])
  }

  lemma ChoiceFreeActive(e: Entry, p: Path)
    requires ChoiceFree(e)
    ensures ActiveAt(e, p) == At(e, p)
    decreases p
  {
    assert C.Skip(e.choices) == {};
    if p != [] && p[0] in e.children {
      ChoiceFreeActive(e.children[p[0]], p[1..]);
    }
  }

  /** Deletes are licensed: what they cover may go. */
  lemma {:induction false} CoveredCanDelete(e: Entry, at: Place, p: Path)
    requires LeavesOk(e) && NoPresenceConflict(e) && ChoiceFree(e)
    requires At(e, p).Some? && Covered(Deletes(e, at, false), p)
    ensures L.CanDelete(At(e, p).value.les)
    decreases p
  {
    ChoiceFreeActive(e, p);
    if DeletedWhole(e, at, false) {
      ShouldDeleteLicensed(e, p);
    } else {
      assert C.Deletes(e.choices) == {};
      if p != [] {
        CoveredStep(e, at, false, p);
        CoveredCanDelete(e.children[p[0]], Below(e, at), p[1..]);
      }
    }
  }

  /** Deletes are complete: every leaf that should go is covered. */
  lemma {:induction false} ShouldDeleteCovered(e: Entry, at: Place, p: Path)
    requires ListsHoldNoValue(e) && At(e, p).Some? && L.ShouldDelete(At(e, p).value.les)
    requires at.root ==> p != []
    ensures Covered(Deletes(e, at, false), p)
    decreases p
  {
    if DeletedWhole(e, at, false) {
      assert [] in Deletes(e, at, false) && [] <= p;
    } else if p != [] {
      ShouldDeleteCovered(e.children[p[0]], Below(e, at), p[1..]);
      CoveredStep(e, at, false, p);
    }
  }

  function NodePaths(e: Entry): set<Path> {
    {[]} + set k, p | k in e.children && p in NodePaths(e.children[k]) :: [k] + p
  }

  lemma {:induction false} NodePathsAt(e: Entry, p: Path)
    ensures p in NodePaths(e) <==> At(e, p).Some?
    decreases p
  {
    if p != [] {
      if p[0] in e.children {
        NodePathsAt(e.children[p[0]], p[1..]);
        assert p == [p[0]] + p[1..];
      }
      if p in NodePaths(e) {
        var k, q :| k in e.children && q in NodePaths(e.children[k]) && p == [k] + q;
        assert p[0] == k && p[1..] == q;
      }
    }
  }

  function RunningAt(e: Entry, p: Path): Option<Value> {
    match At(e, p)
    case None => None
    case Some(n) => L.RunningValue(n.les)
  }

  function DesiredAt(e: Entry, p: Path): Option<Value> {
    match At(e, p)
    case None => None
    case Some(n) => P.Desired(n.les, n.nonRevertive)
  }

  /** The device's configuration as the tree knows it. */
  function Running(e: Entry): map<Path, Value> {
    map p | p in NodePaths(e) && RunningAt(e, p).Some? :: RunningAt(e, p).value
  }

  function DesiredConfig(e: Entry): map<Path, Value> {
    map p | p in NodePaths(e) && DesiredAt(e, p).Some? :: DesiredAt(e, p).value
  }

  /** The device: deletes remove everything at or below their path, then updates are written. */
  ghost function Apply(device: map<Path, Value>, dels: set<Path>, upds: map<Path, Value>): map<Path, Value> {
    (map p | p in device && !Covered(dels, p) :: device[p]) + upds
  }

  ghost function UpdateMap(e: Entry): map<Path, Value> {
    map p | p in (set q | q in Updates(e) :: q.0) :: UpdateValue(e, p)
  }

  ghost function UpdateValue(e: Entry, p: Path): Value
    requires exists q :: q in Updates(e) && q.0 == p
  {
    var q :| q in Updates(e) && q.0 == p;
    q.1.value
  }

  ghost predicate AllSettled(e: Entry) {
    && P.Settled(e.les)
    && forall k | k in e.children :: AllSettled(e.children[k])
  }

  lemma {:induction false} SettledDown(e: Entry, p: Path)
    requires AllSettled(e) && At(e, p).Some?
    ensures P.Settled(At(e, p).value.les)
    decreases p
  {
    if p != [] {
      SettledDown(e.children[p[0]], p[1..]);
    }
  }

  lemma {:induction false} SettledUp(e: Entry)
    requires forall p | At(e, p).Some? :: P.Settled(At(e, p).value.les)
    ensures AllSettled(e)
  {
    assert At(e, []).Some?;
    forall k | k in e.children ensures AllSettled(e.children[k]) {
      forall q | At(e.children[k], q).Some? ensures P.Settled(At(e.children[k], q).value.les) {
        assert ([k] + q)[1..] == q;
        assert At(e, [k] + q) == At(e.children[k], q);
      }
      SettledUp(e.children[k]);
    }
  }

  function Get(m: map<Path, Value>, p: Path): Option<Value> {
    if p in m then Some(m[p]) else None
  }

  function UpdateAtNode(e: Entry, p: Path): Option<Value> {
    match At(e, p)
    case None => None
    case Some(n) =>
      match P.LeafUpdate(n.les, n.nonRevertive)
      case None => None
      case Some(u) => Some(u.value)
  }

  lemma UpdateMapAt(e: Entry, p: Path)
    requires ChoiceFree(e)
    ensures Get(UpdateMap(e), p) == UpdateAtNode(e, p)
  {
    ChoiceFreeActive(e, p);
    if UpdateAtNode(e, p).Some? {
      var n := At(e, p).value;
      var u := P.LeafUpdate(n.les, n.nonRevertive).value;
      UpdateAt(e, p, u);
      var q := (p, u);
      assert q in Updates(e) && q.0 == p;
    }
    if p in UpdateMap(e) {
      var q :| q in Updates(e) && q.0 == p && UpdateValue(e, p) == q.1.value;
      assert q == (p, q.1);
      UpdateAt(e, p, q.1);
    }
  }

  lemma ApplyAt(device: map<Path, Value>, dels: set<Path>, upds: map<Path, Value>, p: Path)
    ensures Get(Apply(device, dels, upds), p) ==
            if Get(upds, p).Some? then Get(upds, p) else if Covered(dels, p) then None else Get(device, p)
  {
  }

  lemma RunningMapAt(e: Entry, p: Path)
    ensures Get(Running(e), p) == RunningAt(e, p)
    ensures Get(DesiredConfig(e), p) == DesiredAt(e, p)
  {
    NodePathsAt(e, p);
  }

  /** What the device holds at one path after the transaction. */
  lemma AppliedAt(e: Entry, p: Path)
    requires ChoiceFree(e)
    ensures Get(Apply(Running(e), Deletes(e, ROOT, false), UpdateMap(e)), p) ==
            if At(e, p).None? then None
            else P.DeviceAfter(At(e, p).value.les, At(e, p).value.nonRevertive, Covered(Deletes(e, ROOT, false), p))
  {
    UpdateMapAt(e, p);
    RunningMapAt(e, p);
    ApplyAt(Running(e), Deletes(e, ROOT, false), UpdateMap(e), p);
  }

  lemma ReconcilesAt(e: Entry, p: Path)
    requires LeavesOk(e) && NoPresenceConflict(e) && ChoiceFree(e) && ListsHoldNoValue(e) && e.les == []
    ensures Get(Apply(Running(e), Deletes(e, ROOT, false), UpdateMap(e)), p) == DesiredAt(e, p) <==>
            (At(e, p).Some? ==> P.Settled(At(e, p).value.les))
  {
    AppliedAt(e, p);
    if At(e, p).Some? {
      var n := At(e, p).value;
      var covered := Covered(Deletes(e, ROOT, false), p);
      LeavesOkAt(e, p);
      if covered {
        CoveredCanDelete(e, ROOT, p);
      }
      if L.ShouldDelete(n.les) {
        ShouldDeleteCovered(e, ROOT, p);
      }
      P.LeafReconciles(n.les, n.nonRevertive, covered);
    }
  }

  /** Reconciliation: on every choice-free tree, applying the deletes and then the updates to
      the device's configuration gives exactly the desired configuration, if and only if every
      leaf is settled. */
  lemma Reconciliation(e: Entry)
    requires LeavesOk(e) && NoPresenceConflict(e) && ChoiceFree(e) && ListsHoldNoValue(e) && e.les == []
    ensures Apply(Running(e), Deletes(e, ROOT, false), UpdateMap(e)) == DesiredConfig(e) <==> AllSettled(e)
  {
    var after, want := Apply(Running(e), Deletes(e, ROOT, false), UpdateMap(e)), DesiredConfig(e);
    forall p ensures Get(after, p) == Get(want, p) <==> (At(e, p).Some? ==> P.Settled(At(e, p).value.les)) {
      ReconcilesAt(e, p);
      RunningMapAt(e, p);
    }
    if after == want {
      SettledUp(e);
    }
    if AllSettled(e) {
      forall p ensures Get(after, p) == Get(want, p) {
        if At(e, p).Some? {
          SettledDown(e, p);
        }
      }
      SameMaps(after, want);
    }
  }

  lemma SameMaps(m: map<Path, Value>, m': map<Path, Value>)
    requires forall p :: Get(m, p) == Get(m', p)
    ensures m == m'
  {
    forall p ensures p in m <==> p in m' ensures p in m ==> m[p] == m'[p] {
      assert Get(m, p) == Get(m', p);
    }
  }

  /** Leaves with at most one deleted variant and no orphan are settled: the common case. */
  lemma OneDeletePerLeafReconciles(e: Entry)
    requires LeavesOk(e) && NoPresenceConflict(e) && ChoiceFree(e) && ListsHoldNoValue(e) && e.les == []
    requires forall p | At(e, p).Some? ::
               && (forall i, j | 0 <= i < j < |At(e, p).value.les| :: !(At(e, p).value.les[i].delete && At(e, p).value.les[j].delete))
               && (forall i | 0 <= i < |At(e, p).value.les| :: !At(e, p).value.les[i].onlyIntended)
    ensures Apply(Running(e), Deletes(e, ROOT, false), UpdateMap(e)) == DesiredConfig(e)
  {
    forall p | At(e, p).Some? ensures P.Settled(At(e, p).value.les) {
      LeavesOkAt(e, p);
      P.OneDeleteSettles(At(e, p).value.les);
    }
    SettledUp(e);
    Reconciliation(e);
  }
}
