/** After a transaction the next look at the tree finds nothing more to do: the question
    performRevert asks after a sync (pkg/datastore/sync.go). */
module Convergence {
  import opened Base
  import opened Tree
  import opened Southbound
  import L = Leaves
  import P = Precedence

  // ---------------------------------------------------------------- the next look at one leaf

  /** A variant as it is loaded again from the intended store; explicit deletes are put back. */
  function Reloaded(l: L.LeafEntry): L.LeafEntry {
    L.LeafEntry(l.owner, l.priority, l.value, false, l.explicitDelete, false, false, l.explicitDelete)
  }

  /** What is loaded again: live intents, explicit deletes and defaults. */
  predicate Stays(l: L.LeafEntry) {
    l.owner != RUNNING && (!l.delete || l.explicitDelete)
  }

  function Remaining(les: seq<L.LeafEntry>): seq<L.LeafEntry> {
    if les == [] then []
    else
      var front, last := Remaining(les[..|les| - 1]), les[|les| - 1];
      if Stays(last) then front + [Reloaded(last)] else front
  }

  function RunningOf(v: Option<Value>): seq<L.LeafEntry> {
    if v.Some? then [L.LeafEntry(RUNNING, RUNNING_PRIO, v.value, false, false, false, false, false)] else []
  }

  /** The leaf at the next look: what stays, and what the device now holds. */
  function NextLeaf(les: seq<L.LeafEntry>, device: Option<Value>): seq<L.LeafEntry> {
    Remaining(les) + RunningOf(device)
  }

  lemma {:induction false} RemainingFrom(les: seq<L.LeafEntry>, i: nat) returns (j: nat)
    requires i < |Remaining(les)|
    ensures j < |les| && Stays(les[j]) && Remaining(les)[i] == Reloaded(les[j])
    decreases |les|
  {
    var front := les[..|les| - 1];
    if i < |Remaining(front)| {
      j := RemainingFrom(front, i);
    } else {
      j := |les| - 1;
    }
  }

  lemma {:induction false} RemainingUnique(les: seq<L.LeafEntry>)
    requires L.UniqueOwners(les)
    ensures L.UniqueOwners(Remaining(les))
    decreases |les|
  {
    if les != [] {
      var front := les[..|les| - 1];
      RemainingUnique(front);
      forall i | 0 <= i < |Remaining(front)| ensures Remaining(front)[i].owner != les[|les| - 1].owner {
        var j := RemainingFrom(front, i);
      }
    }
  }

  /** The first best of the variants that stay is the first best of what remains. */
  lemma {:induction false} RemainingFirst(les: seq<L.LeafEntry>, i: nat) returns (k: nat)
    requires i < |les| && Stays(les[i])
    requires forall j | 0 <= j < |les| && Stays(les[j]) ::
               les[i].priority <= les[j].priority && (j < i ==> les[i].priority < les[j].priority)
    ensures k < |Remaining(les)| && Remaining(les)[k] == Reloaded(les[i]) && L.IsFirstMin(Remaining(les), |Remaining(les)|, k)
    decreases |les|
  {
    var front := les[..|les| - 1];
    if i < |les| - 1 {
      k := RemainingFirst(front, i);
    } else {
      k := |Remaining(front)|;
      forall m | 0 <= m < k ensures les[i].priority < Remaining(front)[m].priority {
        var j := RemainingFrom(front, m);
      }
    }
  }

  lemma FirstMinUnique(les: seq<L.LeafEntry>, i: nat)
    requires L.IsFirstMin(les, |les|, i)
    ensures L.Highest(les) == les[i]
  {
    L.HighestIsFirstMin(les, |les|);
  }

  lemma {:induction false} NextMember(les: seq<L.LeafEntry>, device: Option<Value>, l: L.LeafEntry) returns (j: nat)
    requires l in NextLeaf(les, device) && l.owner != RUNNING
    ensures j < |les| && Stays(les[j]) && l == Reloaded(les[j])
  {
    var i :| 0 <= i < |NextLeaf(les, device)| && NextLeaf(les, device)[i] == l;
    j := RemainingFrom(les, i);
  }

  lemma {:induction false} NextWellFormed(les: seq<L.LeafEntry>, device: Option<Value>)
    requires L.WellFormed(les)
    ensures L.WellFormed(NextLeaf(les, device)) && L.RunningValue(NextLeaf(les, device)) == device
  {
    RemainingUnique(les);
    forall i | 0 <= i < |Remaining(les)|
      ensures Remaining(les)[i].owner != RUNNING && L.PrioOk(Remaining(les)[i]) && L.FlagsOk(Remaining(les)[i])
    {
      var j := RemainingFrom(les, i);
      assert L.PrioOk(les[j]) && L.FlagsOk(les[j]);
    }
    RunningAppended(Remaining(les), device);
  }

  lemma {:induction false} RunningAppended(les: seq<L.LeafEntry>, device: Option<Value>)
    requires L.WellFormed(les) && forall i | 0 <= i < |les| :: les[i].owner != RUNNING
    ensures L.WellFormed(les + RunningOf(device)) && L.RunningValue(les + RunningOf(device)) == device
  {
    var next := les + RunningOf(device);
    if device.Some? {
      assert next[|les|].owner == RUNNING;
      L.ByOwnerAt(next, |les|);
    } else {
      assert next == les && L.IndexOf(next, RUNNING).None?;
    }
  }

  /** The first best of the variants that stay. */
  lemma {:induction false} FirstStaying(les: seq<L.LeafEntry>) returns (i: nat)
    requires Remaining(les) != []
    ensures i < |les| && Stays(les[i])
    ensures forall j | 0 <= j < |les| && Stays(les[j]) ::
              les[i].priority <= les[j].priority && (j < i ==> les[i].priority < les[j].priority)
    decreases |les|
  {
    var front, last := les[..|les| - 1], |les| - 1;
    if Remaining(front) == [] {
      NoneStay(front);
      i := last;
    } else {
      i := FirstStaying(front);
      if Stays(les[last]) && les[last].priority < les[i].priority {
        i := last;
      }
    }
  }

  lemma {:induction false} NoneStay(les: seq<L.LeafEntry>)
    requires Remaining(les) == []
    ensures forall j | 0 <= j < |les| :: !Stays(les[j])
    decreases |les|
  {
    if les != [] {
      NoneStay(les[..|les| - 1]);
    }
  }

  lemma {:induction false} AppendRunning(les: seq<L.LeafEntry>, device: Option<Value>, k: nat)
    requires L.IsFirstMin(les, |les|, k) && les[k].priority < RUNNING_PRIO
    ensures L.IsFirstMin(les + RunningOf(device), |les + RunningOf(device)|, k) && (les + RunningOf(device))[k] == les[k]
  {
  }

  /** The leader at the next look is the first best of what stays, if that is an intent's. */
  lemma {:induction false} NextLeads(les: seq<L.LeafEntry>, device: Option<Value>, i: nat)
    requires i < |les| && Stays(les[i]) && les[i].priority < RUNNING_PRIO
    requires forall j | 0 <= j < |les| && Stays(les[j]) ::
               les[i].priority <= les[j].priority && (j < i ==> les[i].priority < les[j].priority)
    ensures NextLeaf(les, device) != [] && L.Highest(NextLeaf(les, device)) == Reloaded(les[i])
  {
    var k := RemainingFirst(les, i);
    AppendRunning(Remaining(les), device, k);
    FirstMinUnique(NextLeaf(les, device), k);
  }

  /** If a live intent leads at the next look, it is the winner of this one. */
  lemma {:induction false} NextLeader(les: seq<L.LeafEntry>, device: Option<Value>)
    requires L.WellFormed(les) && NextLeaf(les, device) != []
    requires IsIntent(L.Highest(NextLeaf(les, device)).owner) && !L.Highest(NextLeaf(les, device)).explicitDelete
    ensures P.Winner(les).Some? && L.Highest(NextLeaf(les, device)) == Reloaded(P.Winner(les).value)
    ensures IsIntent(P.Winner(les).value.owner) && !L.Highest(les).explicitDelete
  {
    var h := L.Highest(NextLeaf(les, device));
    var j := NextMember(les, device, h);
    HasRemaining(les, j);
    var i := FirstStaying(les);
    assert L.PrioOk(les[i]) && L.PrioOk(les[j]);
    NextLeads(les, device, i);
    StayingWins(les, i);
  }

  lemma {:induction false} HasRemaining(les: seq<L.LeafEntry>, j: nat)
    requires j < |les| && Stays(les[j])
    ensures Remaining(les) != []
  {
    if Remaining(les) == [] {
      NoneStay(les);
    }
  }

  lemma {:induction false} StayingWins(les: seq<L.LeafEntry>, i: nat)
    requires L.WellFormed(les) && i < |les| && Stays(les[i]) && !les[i].explicitDelete && les[i].priority < RUNNING_PRIO
    requires forall j | 0 <= j < |les| && Stays(les[j]) ::
               les[i].priority <= les[j].priority && (j < i ==> les[i].priority < les[j].priority)
    ensures P.Winner(les) == Some(les[i]) && IsIntent(les[i].owner) && !L.Highest(les).explicitDelete
  {
    assert L.PrioOk(les[i]);
    forall j | 0 <= j < |les| && !les[j].delete
      ensures les[i].priority <= les[j].priority && (j < i ==> les[i].priority < les[j].priority)
    {
      assert L.PrioOk(les[j]);
    }
    P.WinnerIsBest(les, i);
    NotExplicitHighest(les, i);
  }

  lemma {:induction false} NotExplicitHighest(les: seq<L.LeafEntry>, i: nat)
    requires L.WellFormed(les) && i < |les| && Stays(les[i]) && !les[i].explicitDelete
    requires forall j | 0 <= j < |les| && Stays(les[j]) ::
               les[i].priority <= les[j].priority && (j < i ==> les[i].priority < les[j].priority)
    ensures !L.Highest(les).explicitDelete
  {
    L.HighestIsFirstMin(les, |les|);
    var h := L.ScanPrefix(les, |les|).highest.value;
    assert L.FlagsOk(les[h]);
  }

  // ---------------------------------------------------------------- explicit deletes that have to wait

  predicate RanksBefore(les: seq<L.LeafEntry>, i: nat, j: nat)
    requires i < |les| && j < |les|
  {
    les[i].priority < les[j].priority || (les[i].priority == les[j].priority && i < j)
  }

  predicate LiveIntent(l: L.LeafEntry) {
    IsIntent(l.owner) && !l.delete
  }

  /** An explicit delete that ranks before every live intent. */
  predicate Overrides(les: seq<L.LeafEntry>, i: nat) {
    i < |les| && les[i].explicitDelete && forall j | 0 <= j < |les| && LiveIntent(les[j]) :: RanksBefore(les, i, j)
  }

  /** An explicit delete overrides every live intent, but a deleted variant outranks it, and the
      device is left with a value: a live intent's, or its own because of an orphan. */
  ghost predicate ExplicitWaits(les: seq<L.LeafEntry>) {
    && les != [] && !L.Highest(les).explicitDelete
    && (exists i :: Overrides(les, i))
    && ((exists j | 0 <= j < |les| :: LiveIntent(les[j])) || (P.HasOrphan(les) && L.HasRunning(les)))
  }

  /** The next look is led by an explicit delete exactly when one overrides every live intent. */
  lemma {:induction false} LedByExplicit(les: seq<L.LeafEntry>, device: Option<Value>)
    requires L.WellFormed(les)
    ensures L.HighestExplicit(NextLeaf(les, device)) <==> exists i :: Overrides(les, i)
  {
    if L.HighestExplicit(NextLeaf(les, device)) {
      var i := LeaderOverrides(les, device);
    }
    if i :| Overrides(les, i) {
      OverrideLeads(les, device, i);
    }
  }

  lemma {:induction false} LeaderOverrides(les: seq<L.LeafEntry>, device: Option<Value>) returns (i: nat)
    requires L.WellFormed(les) && L.HighestExplicit(NextLeaf(les, device))
    ensures Overrides(les, i)
  {
    NextWellFormed(les, device);
    var h := L.Highest(NextLeaf(les, device));
    var n :| 0 <= n < |NextLeaf(les, device)| && NextLeaf(les, device)[n] == h;
    assert L.FlagsOk(NextLeaf(les, device)[n]);
    var j := NextMember(les, device, h);
    HasRemaining(les, j);
    i := FirstStaying(les);
    assert L.PrioOk(les[i]) && L.PrioOk(les[j]);
    NextLeads(les, device, i);
  }

  lemma {:induction false} OverrideLeads(les: seq<L.LeafEntry>, device: Option<Value>, i: nat)
    requires L.WellFormed(les) && Overrides(les, i)
    ensures L.HighestExplicit(NextLeaf(les, device))
  {
    assert L.FlagsOk(les[i]) && L.PrioOk(les[i]);
    HasRemaining(les, i);
    var f := FirstStaying(les);
    assert L.FlagsOk(les[f]) && L.PrioOk(les[f]);
    assert !les[f].explicitDelete ==> LiveIntent(les[f]);
    NextLeads(les, device, f);
  }

  /** With such an explicit delete around, what the device is left with. */
  lemma {:induction false} OverriddenDesired(les: seq<L.LeafEntry>, nonRevertive: set<string>, i: nat)
    requires L.WellFormed(les) && Overrides(les, i) && !L.Highest(les).explicitDelete
    ensures P.Desired(les, nonRevertive).Some? <==>
            (exists j | 0 <= j < |les| :: LiveIntent(les[j])) || (P.HasOrphan(les) && L.HasRunning(les))
  {
    P.WinnerOwner(les);
    assert L.FlagsOk(les[i]);
    if P.Winner(les).Some? && IsIntent(P.Winner(les).value.owner) {
      WinnerNotHighest(les, i);
    }
  }

  lemma {:induction false} WinnerNotHighest(les: seq<L.LeafEntry>, i: nat)
    requires L.WellFormed(les) && Overrides(les, i) && P.Winner(les).Some? && IsIntent(P.Winner(les).value.owner)
    ensures P.Winner(les).value != L.Highest(les)
  {
    var w: nat :| P.IsBestLive(les, w) && les[w] == P.Winner(les).value;
    L.HighestIsFirstMin(les, |les|);
    var h := L.ScanPrefix(les, |les|).highest.value;
    assert LiveIntent(les[w]) && RanksBefore(les, i, w);
    if les[h] == les[w] {
      L.ByOwnerAt(les, h);
      L.ByOwnerAt(les, w);
    }
  }

  /** Exactly then the leaf is to be deleted at the next look. */
  lemma {:induction false} NextDeleted(les: seq<L.LeafEntry>, nonRevertive: set<string>)
    requires L.WellFormed(les)
    ensures L.ShouldDelete(NextLeaf(les, P.Desired(les, nonRevertive))) <==> ExplicitWaits(les)
  {
    var device := P.Desired(les, nonRevertive);
    NextShould(les, device);
    LedByExplicit(les, device);
    if i :| Overrides(les, i) {
      if les != [] && !L.Highest(les).explicitDelete {
        OverriddenDesired(les, nonRevertive, i);
      }
    }
  }

  lemma {:induction false} NextShould(les: seq<L.LeafEntry>, device: Option<Value>)
    requires L.WellFormed(les)
    ensures L.ShouldDelete(NextLeaf(les, device)) <==> device.Some? && L.HighestExplicit(NextLeaf(les, device))
  {
    var next := NextLeaf(les, device);
    NextWellFormed(les, device);
    assert L.HasRunning(next) <==> device.Some?;
    if L.HasIntent(next) && !L.HasSurvivor(next) {
      L.HighestOwner(next);
      var h := L.Highest(next);
      var j := NextMember(les, device, h);
      var i :| 0 <= i < |next| && next[i] == h;
      assert !next[i].Survives();
    }
  }

  /** A leaf that holds what it should sends nothing more. */
  lemma {:induction false} NextNotSent(les: seq<L.LeafEntry>, nonRevertive: set<string>)
    requires L.WellFormed(les)
    ensures P.LeafUpdate(NextLeaf(les, P.Desired(les, nonRevertive)), nonRevertive) == None
  {
    var device := P.Desired(les, nonRevertive);
    var next := NextLeaf(les, device);
    NextWellFormed(les, device);
    if next != [] {
      var h := L.Highest(next);
      if IsIntent(h.owner) && !h.explicitDelete {
        NextLeader(les, device);
        var j := NextMember(les, device, h);
      } else {
        RunningUnsent(next, nonRevertive);
      }
    }
  }

  lemma {:induction false} RunningUnsent(les: seq<L.LeafEntry>, nonRevertive: set<string>)
    requires L.WellFormed(les) && les != [] && (L.Highest(les).owner == RUNNING || L.Highest(les).explicitDelete || L.Highest(les).owner == DEFAULT)
    ensures P.LeafUpdate(les, nonRevertive) == None
  {
    var h := L.ScanPrefix(les, |les|).highest.value;
    assert L.FlagsOk(les[h]);
  }

  // ---------------------------------------------------------------- the next look at the tree

  /** The tree at the next look, when the device holds `device`. */
  function Next(e: Entry, at: Path, device: map<Path, Value>): Entry {
    e.(les := NextLeaf(e.les, Get(device, at)), children := map k | k in e.children :: Next(e.children[k], at + [k], device))
  }

  lemma {:induction false} NextAt(e: Entry, at: Path, device: map<Path, Value>, p: Path)
    ensures At(Next(e, at, device), p).Some? <==> At(e, p).Some?
    ensures At(e, p).Some? ==>
              && At(Next(e, at, device), p).value.les == NextLeaf(At(e, p).value.les, Get(device, at + p))
              && At(Next(e, at, device), p).value.nonRevertive == At(e, p).value.nonRevertive
    decreases p
  {
    if p == [] {
      assert at + p == at;
    } else if p[0] in e.children {
      NextAt(e.children[p[0]], at + [p[0]], device, p[1..]);
      assert at + [p[0]] + p[1..] == at + p;
    }
  }

  /** The tree at the next look after what is desired has been reached. */
  function Reached(e: Entry): Entry {
    Next(e, [], DesiredConfig(e))
  }

  lemma {:induction false} ReachedAt(e: Entry, p: Path)
    ensures At(Reached(e), p).Some? <==> At(e, p).Some?
    ensures At(e, p).Some? ==>
              && At(Reached(e), p).value.les == NextLeaf(At(e, p).value.les, P.Desired(At(e, p).value.les, At(e, p).value.nonRevertive))
              && At(Reached(e), p).value.nonRevertive == At(e, p).value.nonRevertive
  {
    NextAt(e, [], DesiredConfig(e), p);
    assert [] + p == p;
    RunningMapAt(e, p);
  }

  ghost predicate NothingToDelete(e: Entry) {
    && !L.ShouldDelete(e.les) && e.choices == map[]
    && forall k | k in e.children :: NothingToDelete(e.children[k])
  }

  lemma {:induction false} NothingAnywhere(e: Entry)
    requires ChoiceFree(e) && forall p | At(e, p).Some? :: !L.ShouldDelete(At(e, p).value.les)
    ensures NothingToDelete(e)
  {
    assert At(e, []).Some?;
    forall k | k in e.children ensures NothingToDelete(e.children[k]) {
      forall q | At(e.children[k], q).Some? ensures !L.ShouldDelete(At(e.children[k], q).value.les) {
        assert ([k] + q)[1..] == q;
        assert At(e, [k] + q) == At(e.children[k], q);
      }
      NothingAnywhere(e.children[k]);
    }
  }

  lemma {:induction false} NextShape(e: Entry, at: Path, device: map<Path, Value>)
    requires ChoiceFree(e)
    ensures ChoiceFree(Next(e, at, device))
  {
    forall k | k in e.children ensures ChoiceFree(Next(e.children[k], at + [k], device)) {
      NextShape(e.children[k], at + [k], device);
    }
  }

  lemma {:induction false} NothingShould(e: Entry)
    requires NothingToDelete(e)
    ensures !ShouldDelete(e)
  {
    forall k | k in e.children ensures !ShouldDelete(e.children[k]) {
      NothingShould(e.children[k]);
    }
  }

  /** Every list element has an entry for one of its keys. */
  ghost predicate KeyLeafThere(e: Entry, pl: Place) {
    && (IsListElement(e, pl) ==> exists n :: n in pl.keys && n in e.children)
    && forall k | k in e.children :: KeyLeafThere(e.children[k], Below(e, pl))
  }

  lemma {:induction false} NextKeyLeafThere(e: Entry, at: Path, device: map<Path, Value>, pl: Place)
    requires KeyLeafThere(e, pl)
    ensures KeyLeafThere(Next(e, at, device), pl)
  {
    var e' := Next(e, at, device);
    assert Below(e', pl) == Below(e, pl) && e'.children.Keys == e.children.Keys;
    forall k | k in e.children ensures KeyLeafThere(e'.children[k], Below(e, pl)) {
      NextKeyLeafThere(e.children[k], at + [k], device, Below(e, pl));
    }
  }

  lemma {:induction false} NothingDeleted(e: Entry, pl: Place, aggregate: bool)
    requires NothingToDelete(e) && (aggregate ==> KeyLeafThere(e, pl))
    ensures Deletes(e, pl, aggregate) == {}
  {
    NothingShould(e);
    forall k | k in e.children ensures !ShouldDelete(e.children[k]) && Deletes(e.children[k], Below(e, pl), aggregate) == {} {
      NothingShould(e.children[k]);
      NothingDeleted(e.children[k], Below(e, pl), aggregate);
    }
    assert !DeletedWhole(e, pl, aggregate);
  }

  lemma {:induction false} NothingSent(e: Entry)
    requires LeavesOk(e)
    ensures Updates(Reached(e)) == {}
  {
    forall x | x in Updates(Reached(e)) ensures false {
      assert x == (x.0, x.1);
      UpdateAt(Reached(e), x.0, x.1);
      ReachedAt(e, x.0);
      LeavesOkAt(e, x.0);
      NextNotSent(At(e, x.0).value.les, At(e, x.0).value.nonRevertive);
    }
  }

  /** No leaf has an explicit delete waiting behind a deleted variant. */
  ghost predicate NoneWaits(e: Entry) {
    forall p | At(e, p).Some? :: !ExplicitWaits(At(e, p).value.les)
  }

  ghost predicate ReconcilableTree(e: Entry) {
    LeavesOk(e) && NoPresenceConflict(e) && ChoiceFree(e) && ListsHoldNoValue(e) && e.les == []
  }

  /** Convergence: once the deletes and the updates of a settled tree have been applied to the
      device, the next look finds nothing to delete, aggregated or not, and nothing to send,
      unless an explicit delete was waiting. */
  lemma {:induction false} Converges(e: Entry, aggregate: bool)
    requires ReconcilableTree(e) && AllSettled(e) && NoneWaits(e) && (aggregate ==> KeyLeafThere(e, ROOT))
    ensures var next := Next(e, [], Apply(Running(e), Deletes(e, ROOT, false), UpdateMap(e)));
            Deletes(next, ROOT, aggregate) == {} && Updates(next) == {}
  {
    Reconciliation(e);
    NothingSent(e);
    NextShape(e, [], DesiredConfig(e));
    forall p | At(Reached(e), p).Some? ensures !L.ShouldDelete(At(Reached(e), p).value.les) {
      ReachedAt(e, p);
      LeavesOkAt(e, p);
      NextDeleted(At(e, p).value.les, At(e, p).value.nonRevertive);
    }
    NothingAnywhere(Reached(e));
    if aggregate {
      NextKeyLeafThere(e, [], DesiredConfig(e), ROOT);
    }
    NothingDeleted(Reached(e), ROOT, aggregate);
  }

  lemma {:induction false} NextLists(e: Entry, at: Path, device: map<Path, Value>)
    requires ListsHoldNoValue(e) && forall p | At(e, p).Some? && Keys(At(e, p).value) != [] :: Get(device, at + p).None?
    ensures ListsHoldNoValue(Next(e, at, device))
  {
    assert At(e, []).Some? && at + [] == at;
    assert Keys(Next(e, at, device)) == Keys(e);
    forall k | k in e.children ensures ListsHoldNoValue(Next(e.children[k], at + [k], device)) {
      forall q | At(e.children[k], q).Some? && Keys(At(e.children[k], q).value) != [] ensures Get(device, at + [k] + q).None? {
        assert ([k] + q)[1..] == q && At(e, [k] + q) == At(e.children[k], q);
        assert at + ([k] + q) == at + [k] + q;
      }
      NextLists(e.children[k], at + [k], device);
    }
  }

  lemma {:induction false} ListsHoldNoneAt(e: Entry, p: Path)
    requires ListsHoldNoValue(e) && At(e, p).Some? && Keys(At(e, p).value) != []
    ensures At(e, p).value.les == []
    decreases p
  {
    if p != [] {
      ListsHoldNoneAt(e.children[p[0]], p[1..]);
    }
  }

  /** The regular deletes and the updates of the next look are empty if and only if no explicit
      delete was waiting. */
  lemma {:induction false} ConvergesExactly(e: Entry)
    requires ReconcilableTree(e) && AllSettled(e)
    ensures var next := Next(e, [], Apply(Running(e), Deletes(e, ROOT, false), UpdateMap(e)));
            Deletes(next, ROOT, false) == {} && Updates(next) == {} <==> NoneWaits(e)
  {
    Reconciliation(e);
    if NoneWaits(e) {
      Converges(e, false);
    } else {
      var p :| At(e, p).Some? && ExplicitWaits(At(e, p).value.les);
      WaitingIsDeleted(e, p);
    }
  }

  lemma {:induction false} WaitingIsDeleted(e: Entry, p: Path)
    requires ReconcilableTree(e) && At(e, p).Some? && ExplicitWaits(At(e, p).value.les)
    ensures Deletes(Reached(e), ROOT, false) != {}
  {
    ReachedAt(e, p);
    LeavesOkAt(e, p);
    NextDeleted(At(e, p).value.les, At(e, p).value.nonRevertive);
    ReachedLists(e);
    ShouldDeleteCovered(Reached(e), ROOT, p);
  }

  lemma {:induction false} ReachedLists(e: Entry)
    requires ListsHoldNoValue(e)
    ensures ListsHoldNoValue(Reached(e))
  {
    forall q | At(e, q).Some? && Keys(At(e, q).value) != [] ensures Get(DesiredConfig(e), [] + q).None? {
      ListsHoldNoneAt(e, q);
      RunningMapAt(e, q);
      assert [] + q == q;
    }
    NextLists(e, [], DesiredConfig(e));
  }

  /** "b" asks for an explicit delete, but the deleted variant of "a" outranks it. */
  function Waiting(): seq<L.LeafEntry> {
    [L.LeafEntry("a", 1, Value("string", "x"), false, true, false, false, false),
     L.LeafEntry("b", 2, Value("empty", ""), false, true, false, false, true),
     L.LeafEntry("c", 3, Value("string", "y"), false, false, false, false, false)]
  }

  /** The failing leaf: the value of "c" is sent now and deleted at the next look. */
  lemma {:induction false} WaitingLeaf()
    ensures L.WellFormed(Waiting()) && ExplicitWaits(Waiting())
  {
    var les := Waiting();
    assert les[0].owner[0] != les[1].owner[0] && les[1].owner[0] != les[2].owner[0] && les[0].owner[0] != les[2].owner[0];
    assert |RUNNING| == 7 && |DEFAULT| == 7;
    FirstMinUnique(les, 0);
    assert Overrides(les, 1) && LiveIntent(les[2]);
  }

  /** An explicit delete behind a live intent does not wait, although a deleted variant outranks it. */
  lemma {:induction false} OutrankedDoesNotWait()
    ensures var les := [Waiting()[0], Waiting()[2].(priority := 2), Waiting()[1].(priority := 3)];
            L.WellFormed(les) && !ExplicitWaits(les)
  {
    var les := [Waiting()[0], Waiting()[2].(priority := 2), Waiting()[1].(priority := 3)];
    assert les[0].owner[0] != les[1].owner[0] && les[1].owner[0] != les[2].owner[0] && les[0].owner[0] != les[2].owner[0];
    assert |RUNNING| == 7 && |DEFAULT| == 7;
    assert LiveIntent(les[1]);
    assert !RanksBefore(les, 2, 1);
  }
}
