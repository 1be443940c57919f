/** The variants one leaf holds, one per owner, and the decisions taken on them
    (pkg/tree/api/leaf_entry.go and pkg/tree/api/leaf_variants.go). */
module Leaves {
  import opened Base

  datatype LeafEntry = LeafEntry(
    owner: string, priority: int, value: Value,
    isNew: bool, delete: bool, onlyIntended: bool, isUpdated: bool, explicitDelete: bool)
  {
    /** Replaces the value; the orphan flag is left alone, as in the source. */
    function MarkUpdate(u: LeafEntry): LeafEntry {
      this.(priority := u.priority, value := u.value, isUpdated := true, delete := false, isNew := false)
    }

    function MarkDelete(orphan: bool): LeafEntry {
      this.(delete := true, onlyIntended := orphan || onlyIntended, isUpdated := false, isNew := false)
    }

    function DropDelete(): LeafEntry {
      this.(delete := false, onlyIntended := false)
    }

    function ResetFlags(deleteFlag: bool, newFlag: bool, updatedFlag: bool): LeafEntry {
      this.(delete := delete && !deleteFlag,
            onlyIntended := onlyIntended && !(deleteFlag && delete),
            isUpdated := isUpdated && !updatedFlag,
            isNew := isNew && !newFlag)
    }

    predicate SameUpdate(u: LeafEntry) {
      owner == u.owner && priority == u.priority && value == u.value
    }

    /** An intent's variant that keeps its value on the device: not deleted, or deleted
        from the intended store only. */
    predicate Survives() {
      IsIntent(owner) && (!delete || onlyIntended)
    }
  }

  // ---------------------------------------------------------------- well-formedness

  predicate UniqueOwners(les: seq<LeafEntry>) {
    forall i, j | 0 <= i < j < |les| :: les[i].owner != les[j].owner
  }

  /** Intents rank before running, running before defaults. */
  predicate PrioOk(l: LeafEntry) {
    && (l.owner == RUNNING ==> l.priority == RUNNING_PRIO)
    && (l.owner == DEFAULT ==> l.priority == DEFAULT_PRIO)
    && (IsIntent(l.owner) ==> l.priority < RUNNING_PRIO)
  }

  predicate FlagsOk(l: LeafEntry) {
    && (l.explicitDelete ==> IsIntent(l.owner) && l.delete && !l.onlyIntended)
    && (l.owner == RUNNING ==> !l.isNew && !l.delete && !l.onlyIntended && !l.isUpdated)
  }

  predicate WellFormed(les: seq<LeafEntry>) {
    && UniqueOwners(les)
    && forall i | 0 <= i < |les| :: PrioOk(les[i]) && FlagsOk(les[i])
  }

  // ---------------------------------------------------------------- lookups

  function IndexOf(les: seq<LeafEntry>, owner: string): (r: Option<nat>)
    ensures r.Some? ==> r.value < |les| && les[r.value].owner == owner
    ensures r.Some? ==> forall j | 0 <= j < r.value :: les[j].owner != owner
    ensures r.None? <==> forall j | 0 <= j < |les| :: les[j].owner != owner
  {
    if les == [] then None
    else if les[0].owner == owner then Some(0)
    else
      assert forall j | 1 <= j < |les| :: les[j] == les[1..][j - 1];
      match IndexOf(les[1..], owner)
      case None => None
      case Some(i) => Some(i + 1)
  }

  function ByOwner(les: seq<LeafEntry>, owner: string): Option<LeafEntry> {
    match IndexOf(les, owner)
    case None => None
    case Some(i) => Some(les[i])
  }

  function RunningValue(les: seq<LeafEntry>): Option<Value> {
    match ByOwner(les, RUNNING)
    case None => None
    case Some(l) => Some(l.value)
  }

  lemma ByOwnerAt(les: seq<LeafEntry>, i: nat)
    requires UniqueOwners(les) && i < |les|
    ensures IndexOf(les, les[i].owner) == Some(i)
  {
  }

  // ---------------------------------------------------------------- the precedence scan

  /** What the one-pass scan of GetHighestPrecedence remembers after n variants:
      the index of the highest precedence and of the next candidate. */
  datatype Scan = Scan(highest: Option<nat>, second: Option<nat>)

  function ScanStep(les: seq<LeafEntry>, s: Scan, i: nat): Scan
    requires i < |les|
    requires s.highest.Some? ==> s.highest.value < |les|
    requires s.second.Some? ==> s.second.value < |les|
  {
    if s.highest.None? then s.(highest := Some(i))
    else if les[s.highest.value].priority > les[i].priority then Scan(Some(i), s.highest)
    else if s.second.None? || (les[s.second.value].priority > les[i].priority && !les[i].delete)
    then s.(second := Some(i))
    else s
  }

  function ScanPrefix(les: seq<LeafEntry>, n: nat): (s: Scan)
    requires n <= |les|
    ensures s.highest.Some? <==> n > 0
    ensures s.second.Some? <==> n > 1
    ensures s.highest.Some? ==> s.highest.value < n
    ensures s.second.Some? ==> s.second.value < n && s.second != s.highest
  {
    if n == 0 then Scan(None, None) else ScanStep(les, ScanPrefix(les, n - 1), n - 1)
  }

  predicate IsFirstMin(les: seq<LeafEntry>, n: nat, i: nat)
    requires n <= |les|
  {
    && i < n
    && (forall j | 0 <= j < n :: les[i].priority <= les[j].priority)
    && (forall j | 0 <= j < i :: les[i].priority < les[j].priority)
  }

  /** The highest precedence is the first variant of least priority number. */
  lemma {:induction false} HighestIsFirstMin(les: seq<LeafEntry>, n: nat)
    requires 0 < n <= |les|
    ensures IsFirstMin(les, n, ScanPrefix(les, n).highest.value)
  {
    if n > 1 {
      HighestIsFirstMin(les, n - 1);
    }
  }

  function Highest(les: seq<LeafEntry>): (l: LeafEntry)
    requires les != []
    ensures l in les
  {
    les[ScanPrefix(les, |les|).highest.value]
  }

  predicate HighestExplicit(les: seq<LeafEntry>) {
    les != [] && Highest(les).owner != DEFAULT && Highest(les).explicitDelete
  }

  predicate HasIntent(les: seq<LeafEntry>) {
    exists i | 0 <= i < |les| :: IsIntent(les[i].owner)
  }

  predicate HasSurvivor(les: seq<LeafEntry>) {
    exists i | 0 <= i < |les| :: les[i].Survives()
  }

  predicate HasRunning(les: seq<LeafEntry>) {
    ByOwner(les, RUNNING).Some?
  }

  // ---------------------------------------------------------------- decisions

  predicate OnlyRunningMaybeDefault(les: seq<LeafEntry>) {
    || (|les| == 1 && les[0].owner == RUNNING)
    || (|les| == 2 && ByOwner(les, RUNNING).Some? && ByOwner(les, DEFAULT).Some?)
  }

  predicate CanDelete(les: seq<LeafEntry>) {
    || les == []
    || (&& !OnlyRunningMaybeDefault(les)
        && (|| HighestExplicit(les)
            || forall i | 0 <= i < |les| :: les[i].explicitDelete || !les[i].Survives()))
  }

  predicate ShouldDelete(les: seq<LeafEntry>) {
    && HasRunning(les)
    && (HighestExplicit(les) || (HasIntent(les) && !HasSurvivor(les)))
  }

  predicate RemainsToExist(les: seq<LeafEntry>) {
    && les != []
    && Highest(les).owner != DEFAULT
    && !Highest(les).explicitDelete
    && (HasSurvivor(les) || !HasIntent(les))
  }

  /** Whether the branch may be pruned from the tree (a check that also counts running). */
  predicate CanDeleteBranch(les: seq<LeafEntry>, keepDefault: bool) {
    || les == []
    || HighestExplicit(les)
    || forall i | 0 <= i < |les| ::
         (les[i].owner != DEFAULT || keepDefault) ==> les[i].delete && !les[i].onlyIntended
  }

  predicate UnequalRunning(les: seq<LeafEntry>, h: LeafEntry, nonRevertive: set<string>) {
    && h.owner != RUNNING
    && (h.isNew || h.isUpdated || h.owner !in nonRevertive)
    && RunningValue(les) != Some(h.value)
  }

  function HighestPrecedence(les: seq<LeafEntry>, onlyNewOrUpdated: bool, includeDefaults: bool,
                             includeExplicit: bool, nonRevertive: set<string>): Option<LeafEntry> {
    if les == [] || (onlyNewOrUpdated && CanDelete(les)) then None
    else
      var s := ScanPrefix(les, |les|);
      var h := les[s.highest.value];
      if h.explicitDelete && !includeExplicit then None
      else if !includeDefaults && h.owner == DEFAULT then None
      else if !onlyNewOrUpdated then Some(h)
      else if !h.delete then
        if h.isNew || h.isUpdated || UnequalRunning(les, h, nonRevertive) then Some(h) else None
      else if s.second.Some? && !les[s.second.value].delete && les[s.second.value].owner != RUNNING
      then Some(les[s.second.value])
      else None
  }

  // ---------------------------------------------------------------- predicate algebra on one leaf

  lemma HighestOwner(les: seq<LeafEntry>)
    requires WellFormed(les) && les != []
    ensures HasIntent(les) <==> IsIntent(Highest(les).owner)
    ensures !HasIntent(les) && HasRunning(les) ==> Highest(les).owner == RUNNING
    ensures Highest(les).owner == DEFAULT <==> les == [Highest(les)] && Highest(les).owner == DEFAULT
  {
    HighestIsFirstMin(les, |les|);
    var h := ScanPrefix(les, |les|).highest.value;
    assert PrioOk(les[h]);
    if HasIntent(les) {
      var i :| 0 <= i < |les| && IsIntent(les[i].owner);
      assert PrioOk(les[i]);
    }
    if HasRunning(les) {
      assert PrioOk(les[IndexOf(les, RUNNING).value]);
    }
    if |les| > 1 {
      var j := if h == 0 then 1 else 0;
      assert PrioOk(les[j]) && les[j].owner != les[h].owner;
    }
  }

  /** The length test of the source says: running is here and no intent is. */
  lemma OnlyRunningMeaning(les: seq<LeafEntry>)
    requires WellFormed(les)
    ensures OnlyRunningMaybeDefault(les) <==> HasRunning(les) && !HasIntent(les)
  {
    if |les| > 2 {
      assert les[0].owner != les[1].owner && les[0].owner != les[2].owner && les[1].owner != les[2].owner;
    } else if |les| == 2 {
      assert les[0].owner != les[1].owner;
    }
  }

  /** CanDelete in terms of what the leaf holds. */
  lemma CanDeleteMeaning(les: seq<LeafEntry>)
    requires WellFormed(les)
    ensures CanDelete(les) <==>
            HighestExplicit(les) || (!HasSurvivor(les) && (HasIntent(les) || !HasRunning(les)))
  {
    OnlyRunningMeaning(les);
    if les != [] {
      HighestOwner(les);
    }
    forall i | 0 <= i < |les| ensures les[i].explicitDelete ==> !les[i].Survives() {
      assert FlagsOk(les[i]);
    }
  }

  /** RemainsToExist is the negation of CanDelete, and ShouldDelete is stronger than CanDelete. */
  lemma LeafAlgebra(les: seq<LeafEntry>)
    requires WellFormed(les)
    ensures RemainsToExist(les) <==> !CanDelete(les)
    ensures ShouldDelete(les) ==> CanDelete(les)
  {
    CanDeleteMeaning(les);
    if les != [] {
      HighestOwner(les);
      if !HasIntent(les) && !HasRunning(les) {
        assert les[0].owner == DEFAULT;
        assert PrioOk(les[0]);
        assert forall i | 0 <= i < |les| :: les[i].owner == DEFAULT;
      }
    }
  }
}
