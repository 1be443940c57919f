/** What the one-pass precedence scan computes, exactly, and what a leaf ends up
    holding on the device (pkg/tree/api/leaf_variants.go, GetHighestPrecedence). */
module Precedence {
  import opened Base
  import opened Leaves

  // ---------------------------------------------------------------- the second candidate

  /** The variant the scan first keeps as its fallback: the one displaced by the winner,
      or, when the winner comes first, its successor. */
  function Rival(les: seq<LeafEntry>, n: nat): (r: nat)
    requires 2 <= n <= |les|
    ensures r < n
  {
    var h := ScanPrefix(les, n).highest.value;
    if h == 0 then 1 else ScanPrefix(les, h).highest.value
  }

  /** A live variant that outranks the rival. */
  predicate Outranks(les: seq<LeafEntry>, n: nat, j: nat)
    requires 2 <= n <= |les|
  {
    && j < n && !les[j].delete
    && Some(j) != ScanPrefix(les, n).highest
    && les[j].priority < les[Rival(les, n)].priority
  }

  predicate SecondOk(les: seq<LeafEntry>, n: nat, s: nat)
    requires 2 <= n <= |les|
  {
    || (s == Rival(les, n) && forall j: nat | j < n :: !Outranks(les, n, j))
    || (&& Outranks(les, n, s)
        && forall j: nat | j < n && Outranks(les, n, j) ::
             les[s].priority <= les[j].priority && (j < s ==> les[s].priority < les[j].priority))
  }

  lemma {:induction false} SecondIsRivalOrBest(les: seq<LeafEntry>, n: nat)
    requires 2 <= n <= |les|
    ensures SecondOk(les, n, ScanPrefix(les, n).second.value)
  {
    HighestIsFirstMin(les, n);
    HighestIsFirstMin(les, n - 1);
    var s := ScanPrefix(les, n);
    if n == 2 {
      assert ScanPrefix(les, 1) == Scan(Some(0), None);
    } else {
      SecondIsRivalOrBest(les, n - 1);
      var t := ScanPrefix(les, n - 1);
      if s.highest != Some(n - 1) {
        assert s.highest == t.highest && Rival(les, n) == Rival(les, n - 1);
        assert forall j: nat | j < n - 1 :: Outranks(les, n, j) == Outranks(les, n - 1, j);
      }
    }
  }

  /** The next candidate is a deleted variant: exactly here the scan loses sight of
      the live variants below it. */
  predicate Stuck(les: seq<LeafEntry>) {
    && |les| >= 2
    && les[Rival(les, |les|)].delete
    && forall j: nat | j < |les| :: !Outranks(les, |les|, j)
  }

  predicate IsBestLive(les: seq<LeafEntry>, i: nat) {
    && i < |les| && !les[i].delete
    && forall j | 0 <= j < |les| && !les[j].delete ::
         les[i].priority <= les[j].priority && (j < i ==> les[i].priority < les[j].priority)
  }

  /** The winner if it is live; otherwise the second candidate is deleted exactly when
      Stuck, and is the best live variant exactly when it is not deleted. */
  lemma SecondCandidateExact(les: seq<LeafEntry>)
    requires |les| >= 2 && Highest(les).delete
    ensures les[ScanPrefix(les, |les|).second.value].delete <==> Stuck(les)
    ensures !Stuck(les) ==> IsBestLive(les, ScanPrefix(les, |les|).second.value)
  {
    var n := |les|;
    SecondIsRivalOrBest(les, n);
    HighestIsFirstMin(les, n);
    var s := ScanPrefix(les, n);
    if s.highest.value > 0 {
      HighestIsFirstMin(les, s.highest.value);
    }
    if !Stuck(les) {
      var i := s.second.value;
      forall j | 0 <= j < n && !les[j].delete
        ensures les[i].priority <= les[j].priority && (j < i ==> les[i].priority < les[j].priority)
      {
        assert j != s.highest.value;
        if !Outranks(les, n, j) {
          assert les[j].priority >= les[Rival(les, n)].priority;
        }
      }
    }
  }

  lemma BestLiveUnique(les: seq<LeafEntry>, i: nat, j: nat)
    requires IsBestLive(les, i) && IsBestLive(les, j)
    ensures i == j
  {
  }

  /** With at most one deleted variant on the leaf the scan is never stuck. */
  lemma OneDeleteNeverStuck(les: seq<LeafEntry>)
    requires forall i, j | 0 <= i < j < |les| :: !(les[i].delete && les[j].delete)
    requires les != [] && Highest(les).delete
    ensures !Stuck(les)
  {
    if |les| >= 2 {
      var h := ScanPrefix(les, |les|).highest.value;
      var r := Rival(les, |les|);
      assert r != h && les[h].delete;
      assert r < h || h < r;
    }
  }

  /** First live variant of least priority number. */
  function BestLive(les: seq<LeafEntry>, n: nat): (r: Option<nat>)
    requires n <= |les|
    ensures r.Some? ==> r.value < n && IsBestLive(les[..n], r.value)
    ensures r.None? ==> forall j | 0 <= j < n :: les[j].delete
  {
    if n == 0 then None
    else
      assert les[..n - 1] == les[..n][..n - 1];
      match BestLive(les, n - 1)
      case None => if les[n - 1].delete then None else Some(n - 1)
      case Some(i) =>
        if !les[n - 1].delete && les[n - 1].priority < les[i].priority then Some(n - 1) else Some(i)
  }

  function Winner(les: seq<LeafEntry>): (r: Option<LeafEntry>)
    ensures r.Some? ==> exists i: nat :: IsBestLive(les, i) && les[i] == r.value
    ensures r.None? ==> forall j | 0 <= j < |les| :: les[j].delete
  {
    assert les[..|les|] == les;
    match BestLive(les, |les|)
    case None => None
    case Some(i) => assert IsBestLive(les, i); Some(les[i])
  }

  // ---------------------------------------------------------------- what the device should hold

  predicate HasOrphan(les: seq<LeafEntry>) {
    exists i | 0 <= i < |les| :: IsIntent(les[i].owner) && les[i].delete && les[i].onlyIntended
  }

  /** The value the device should hold for this leaf after the transaction:
      nothing if an explicit delete wins; otherwise the best live intent's value (left as it
      is when that intent is unchanged and non-revertive); without a live intent the device
      keeps its value if no intent spoke for the leaf or one was orphaned. */
  function Desired(les: seq<LeafEntry>, nonRevertive: set<string>): Option<Value> {
    if les == [] || Highest(les).explicitDelete then None
    else if Winner(les).Some? && IsIntent(Winner(les).value.owner) then
      var w := Winner(les).value;
      if w == Highest(les) && !w.isNew && !w.isUpdated && w.owner in nonRevertive
      then RunningValue(les)
      else Some(w.value)
    else if !HasIntent(les) || HasOrphan(les) then RunningValue(les)
    else None
  }

  /** The update this leaf sends southbound. */
  function LeafUpdate(les: seq<LeafEntry>, nonRevertive: set<string>): Option<LeafEntry> {
    HighestPrecedence(les, true, false, false, nonRevertive)
  }

  /** What the device holds afterwards, when `covered` says whether a delete covers the leaf. */
  function DeviceAfter(les: seq<LeafEntry>, nonRevertive: set<string>, covered: bool): Option<Value> {
    match LeafUpdate(les, nonRevertive)
    case Some(u) => Some(u.value)
    case None => if covered then None else RunningValue(les)
  }

  /** The exact condition under which the decisions give the desired value: when the winner
      is deleted and something survives, either the scan is not stuck and does not fall
      through to a default, or what it fails to send is on the device already. */
  predicate Settled(les: seq<LeafEntry>) {
    les != [] && Highest(les).delete && HasSurvivor(les) && !HighestExplicit(les) && Winner(les).Some? ==>
      var w := Winner(les).value;
      if IsIntent(w.owner) then Stuck(les) ==> RunningValue(les) == Some(w.value)
      else w.owner == DEFAULT ==> Stuck(les)
  }

  lemma WinnerIsBest(les: seq<LeafEntry>, i: nat)
    requires IsBestLive(les, i)
    ensures Winner(les) == Some(les[i])
  {
    assert !les[i].delete;
    var j: nat :| IsBestLive(les, j) && les[j] == Winner(les).value;
    BestLiveUnique(les, i, j);
  }

  lemma LiveHighestWins(les: seq<LeafEntry>)
    requires les != [] && !Highest(les).delete
    ensures Winner(les) == Some(Highest(les))
  {
    HighestIsFirstMin(les, |les|);
    WinnerIsBest(les, ScanPrefix(les, |les|).highest.value);
  }

  /** Which live intent wins decides whether any live intent is left. */
  lemma WinnerOwner(les: seq<LeafEntry>)
    requires WellFormed(les)
    ensures (Winner(les).Some? && IsIntent(Winner(les).value.owner)) <==>
            exists i | 0 <= i < |les| :: IsIntent(les[i].owner) && !les[i].delete
    ensures Winner(les).Some? && Winner(les).value.owner == DEFAULT ==> !HasRunning(les)
  {
    if Winner(les).Some? {
      var w: nat :| IsBestLive(les, w) && les[w] == Winner(les).value;
      assert PrioOk(les[w]);
      forall i | 0 <= i < |les| ensures PrioOk(les[i]) && FlagsOk(les[i]) {}
      if HasRunning(les) {
        var r := IndexOf(les, RUNNING).value;
        assert !les[r].delete;
      }
    }
  }

  lemma GoneLeafUntouched(les: seq<LeafEntry>, nonRevertive: set<string>, covered: bool)
    requires WellFormed(les) && CanDelete(les)
    requires ShouldDelete(les) ==> covered
    ensures DeviceAfter(les, nonRevertive, covered) == None == Desired(les, nonRevertive)
  {
    CanDeleteMeaning(les);
    WinnerOwner(les);
    if les != [] {
      HighestOwner(les);
    }
  }

  lemma LiveWinnerSent(les: seq<LeafEntry>, nonRevertive: set<string>)
    requires WellFormed(les) && !CanDelete(les) && !Highest(les).delete
    ensures DeviceAfter(les, nonRevertive, false) == Desired(les, nonRevertive)
  {
    CanDeleteMeaning(les);
    LiveHighestWins(les);
    HighestOwner(les);
    var h := ScanPrefix(les, |les|).highest.value;
    assert PrioOk(les[h]) && FlagsOk(les[h]);
    if les[h].owner == RUNNING {
      ByOwnerAt(les, h);
    }
  }

  lemma DeletedWinnerReplaced(les: seq<LeafEntry>, nonRevertive: set<string>)
    requires WellFormed(les) && !CanDelete(les) && Highest(les).delete
    ensures DeviceAfter(les, nonRevertive, false) == Desired(les, nonRevertive) <==> Settled(les)
  {
    CanDeleteMeaning(les);
    HighestOwner(les);
    WinnerOwner(les);
    var s := ScanPrefix(les, |les|);
    assert FlagsOk(les[s.highest.value]);
    if |les| == 1 {
      assert Winner(les).None? by {
        assert les[0].delete;
      }
    } else {
      SecondCandidateExact(les);
      var i := s.second.value;
      if !Stuck(les) {
        WinnerIsBest(les, i);
        if les[i].owner == RUNNING {
          ByOwnerAt(les, i);
        }
      }
    }
  }

  /** Leaf reconciliation: whatever deletes cover the leaf, as long as they are licensed by
      CanDelete and complete for ShouldDelete, the device ends with the desired value
      exactly when the leaf is Settled. */
  lemma LeafReconciles(les: seq<LeafEntry>, nonRevertive: set<string>, covered: bool)
    requires WellFormed(les)
    requires covered ==> CanDelete(les)
    requires ShouldDelete(les) ==> covered
    ensures DeviceAfter(les, nonRevertive, covered) == Desired(les, nonRevertive) <==> Settled(les)
  {
    CanDeleteMeaning(les);
    if CanDelete(les) {
      GoneLeafUntouched(les, nonRevertive, covered);
    } else if !Highest(les).delete {
      LiveWinnerSent(les, nonRevertive);
    } else {
      DeletedWinnerReplaced(les, nonRevertive);
    }
  }

  /** A leaf with at most one deleted variant and no orphaned one is always settled. */
  lemma OneDeleteSettles(les: seq<LeafEntry>)
    requires WellFormed(les)
    requires forall i, j | 0 <= i < j < |les| :: !(les[i].delete && les[j].delete)
    requires forall i | 0 <= i < |les| :: !les[i].onlyIntended
    ensures Settled(les)
  {
    if les != [] && Highest(les).delete {
      OneDeleteNeverStuck(les);
      WinnerOwner(les);
    }
  }

  // ---------------------------------------------------------------- the failing inputs

  function Variant(owner: string, prio: int, text: string, deleted: bool, orphan: bool): LeafEntry {
    LeafEntry(owner, prio, Value("string", text), false, deleted, orphan, false, false)
  }

  /** Two deleted intents ahead of a live one: the live intent's value is never sent. */
  lemma TwoDeletesLoseTheThird()
    ensures var les := [Variant("a", 1, "x", true, false), Variant("b", 2, "x", true, false),
                        Variant("c", 3, "y", false, false), Variant(RUNNING, RUNNING_PRIO, "x", false, false)];
            && WellFormed(les) && Stuck(les) && !Settled(les)
            && LeafUpdate(les, {}) == None
            && Desired(les, {}) == Some(Value("string", "y"))
  {
    var les := [Variant("a", 1, "x", true, false), Variant("b", 2, "x", true, false),
                Variant("c", 3, "y", false, false), Variant(RUNNING, RUNNING_PRIO, "x", false, false)];
    assert ScanPrefix(les, 1) == Scan(Some(0), None);
    assert ScanPrefix(les, 2) == Scan(Some(0), Some(1));
    assert ScanPrefix(les, 3) == Scan(Some(0), Some(1));
    assert ScanPrefix(les, 4) == Scan(Some(0), Some(1));
    assert les[2].Survives();
    WinnerIsBest(les, 2);
    ByOwnerAt(les, 3);
    assert les[3].owner == RUNNING;
  }

  /** An orphaned intent over a default, with nothing on the device: the default is sent. */
  lemma OrphanLeaksDefault()
    ensures var les := [Variant("a", 1, "x", true, true), Variant(DEFAULT, DEFAULT_PRIO, "d", false, false)];
            && WellFormed(les) && !Settled(les)
            && LeafUpdate(les, {}) == Some(les[1])
            && Desired(les, {}) == None
  {
    var les := [Variant("a", 1, "x", true, true), Variant(DEFAULT, DEFAULT_PRIO, "d", false, false)];
    assert ScanPrefix(les, 1) == Scan(Some(0), None);
    assert ScanPrefix(les, 2) == Scan(Some(0), Some(1));
    assert les[0].Survives();
    WinnerIsBest(les, 1);
  }
}
