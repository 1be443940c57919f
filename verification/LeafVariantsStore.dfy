/** The mutable slice of variants (pkg/tree/api/leaf_variants.go): the updates it takes,
    the scans over it, and what each update does to every owner's variant. */
module LeafStore {
  import opened Base
  import opened Leaves

  // ---------------------------------------------------------------- specifications of the updates

  function Added(les: seq<LeafEntry>, le: LeafEntry): seq<LeafEntry> {
    match IndexOf(les, le.owner)
    case None => les + [le]
    case Some(i) =>
      les[i := if les[i].SameUpdate(le) then les[i].DropDelete() else les[i].MarkUpdate(le)]
  }

  function Without(les: seq<LeafEntry>, i: nat): seq<LeafEntry>
    requires i < |les|
  {
    les[..i] + les[i + 1..]
  }

  function Removed(les: seq<LeafEntry>, owner: string): seq<LeafEntry> {
    match IndexOf(les, owner)
    case None => les
    case Some(i) => Without(les, i)
  }

  function RemovedIfDeleted(les: seq<LeafEntry>, owner: string): seq<LeafEntry> {
    match IndexOf(les, owner)
    case None => les
    case Some(i) => if les[i].delete then Without(les, i) else les
  }

  function Marked(les: seq<LeafEntry>, owner: string, orphan: bool): seq<LeafEntry> {
    match IndexOf(les, owner)
    case None => les
    case Some(i) => les[i := les[i].MarkDelete(orphan)]
  }

  function Reset(les: seq<LeafEntry>, d: bool, n: bool, u: bool): seq<LeafEntry> {
    seq(|les|, i requires 0 <= i < |les| => les[i].ResetFlags(d, n, u))
  }

  // ---------------------------------------------------------------- what each update means per owner

  lemma ByOwnerUnique(les: seq<LeafEntry>, owner: string, i: nat)
    requires UniqueOwners(les) && i < |les| && les[i].owner == owner
    ensures ByOwner(les, owner) == Some(les[i])
  {
    ByOwnerAt(les, i);
  }

  /** Two variant lists with the same variant for an owner at some index agree on that owner. */
  lemma ByOwnerAgree(les: seq<LeafEntry>, les': seq<LeafEntry>, owner: string)
    requires UniqueOwners(les) && UniqueOwners(les')
    requires forall l: LeafEntry :: l.owner == owner ==> (l in les <==> l in les')
    ensures ByOwner(les, owner) == ByOwner(les', owner)
  {
    if ByOwner(les', owner).Some? {
      assert ByOwner(les', owner).value in les;
    }
    if ByOwner(les, owner).Some? {
      var l := ByOwner(les, owner).value;
      assert l in les';
      var j :| 0 <= j < |les'| && les'[j] == l;
      ByOwnerUnique(les', owner, j);
    }
  }

  /** Adding upserts one owner: afterwards that owner holds the added value, live unless it was
      added deleted, and every other owner's variant is untouched. */
  lemma AddedPerOwner(les: seq<LeafEntry>, le: LeafEntry, owner: string)
    requires UniqueOwners(les)
    ensures UniqueOwners(Added(les, le))
    ensures owner != le.owner ==> ByOwner(Added(les, le), owner) == ByOwner(les, owner)
    ensures ByOwner(Added(les, le), le.owner).Some?
    ensures ByOwner(Added(les, le), le.owner).value.SameUpdate(le)
    ensures !le.delete ==> !ByOwner(Added(les, le), le.owner).value.delete
  {
    var les' := Added(les, le);
    match IndexOf(les, le.owner)
    case None =>
      assert les'[|les|] == le;
      ByOwnerUnique(les', le.owner, |les|);
      if owner != le.owner {
        ByOwnerAgree(les, les', owner);
      }
    case Some(i) =>
      ByOwnerUnique(les', le.owner, i);
      if owner != le.owner {
        forall l: LeafEntry | l.owner == owner ensures l in les <==> l in les' {
          if l in les {
            var j :| 0 <= j < |les| && les[j] == l;
            assert les'[j] == l;
          }
        }
        ByOwnerAgree(les, les', owner);
      }
  }

  /** Adding raises none of the explicit-delete, orphan and new flags of a variant that lacks it. */
  lemma AddedFlags(les: seq<LeafEntry>, le: LeafEntry)
    requires UniqueOwners(les)
    ensures ByOwner(Added(les, le), le.owner).Some?
    ensures var before, after := ByOwner(les, le.owner), ByOwner(Added(les, le), le.owner).value;
            && (after.explicitDelete ==> le.explicitDelete || (before.Some? && before.value.explicitDelete))
            && (after.onlyIntended ==> le.onlyIntended || (before.Some? && before.value.onlyIntended))
            && (after.isNew ==> le.isNew || (before.Some? && before.value.isNew))
  {
    AddedPerOwner(les, le, le.owner);
    var les' := Added(les, le);
    match IndexOf(les, le.owner)
    case None =>
      ByOwnerUnique(les', le.owner, |les|);
    case Some(i) =>
      ByOwnerUnique(les', le.owner, i);
  }

  lemma WithoutPerOwner(les: seq<LeafEntry>, i: nat, owner: string)
    requires UniqueOwners(les) && i < |les|
    ensures UniqueOwners(Without(les, i))
    ensures ByOwner(Without(les, i), les[i].owner) == None
    ensures owner != les[i].owner ==> ByOwner(Without(les, i), owner) == ByOwner(les, owner)
  {
    var les' := Without(les, i);
    assert forall j | 0 <= j < |les'| :: les'[j] == les[if j < i then j else j + 1];
    if owner != les[i].owner {
      forall l: LeafEntry | l.owner == owner ensures l in les <==> l in les' {
        if l in les {
          var j :| 0 <= j < |les| && les[j] == l;
          assert les'[if j < i then j else j - 1] == l;
        }
      }
      ByOwnerAgree(les, les', owner);
    }
  }

  /** Deleting by owner removes that owner and nothing else. */
  lemma RemovedPerOwner(les: seq<LeafEntry>, gone: string, owner: string)
    requires UniqueOwners(les)
    ensures UniqueOwners(Removed(les, gone))
    ensures ByOwner(Removed(les, gone), owner) == if owner == gone then None else ByOwner(les, owner)
  {
    if IndexOf(les, gone).Some? {
      WithoutPerOwner(les, IndexOf(les, gone).value, owner);
    }
  }

  lemma RemovedIfDeletedPerOwner(les: seq<LeafEntry>, gone: string, owner: string)
    requires UniqueOwners(les)
    ensures UniqueOwners(RemovedIfDeleted(les, gone))
    ensures ByOwner(RemovedIfDeleted(les, gone), owner) ==
            if owner == gone && ByOwner(les, gone).Some? && ByOwner(les, gone).value.delete
            then None else ByOwner(les, owner)
  {
    if IndexOf(les, gone).Some? {
      WithoutPerOwner(les, IndexOf(les, gone).value, owner);
    }
  }

  lemma MarkedPerOwner(les: seq<LeafEntry>, marked: string, orphan: bool, owner: string)
    requires UniqueOwners(les)
    ensures UniqueOwners(Marked(les, marked, orphan))
    ensures ByOwner(Marked(les, marked, orphan), owner) ==
            if owner == marked && ByOwner(les, owner).Some?
            then Some(ByOwner(les, owner).value.MarkDelete(orphan)) else ByOwner(les, owner)
  {
    var les' := Marked(les, marked, orphan);
    if IndexOf(les, marked).Some? {
      var i := IndexOf(les, marked).value;
      ByOwnerUnique(les', marked, i);
      if owner != marked {
        forall l: LeafEntry | l.owner == owner ensures l in les <==> l in les' {
          if l in les {
            var j :| 0 <= j < |les| && les[j] == l;
            assert les'[j] == l;
          }
        }
        ByOwnerAgree(les, les', owner);
      }
    }
  }

  lemma ResetPerOwner(les: seq<LeafEntry>, d: bool, n: bool, u: bool, owner: string)
    requires UniqueOwners(les)
    ensures UniqueOwners(Reset(les, d, n, u))
    ensures ByOwner(Reset(les, d, n, u), owner) ==
            if ByOwner(les, owner).Some? then Some(ByOwner(les, owner).value.ResetFlags(d, n, u)) else None
  {
    var les' := Reset(les, d, n, u);
    assert forall i | 0 <= i < |les| :: les'[i].owner == les[i].owner;
    if IndexOf(les, owner).Some? {
      ByOwnerUnique(les', owner, IndexOf(les, owner).value);
    } else {
      assert IndexOf(les', owner).None?;
    }
  }

  /** A flag that is set is to be reset. */
  predicate Resets(l: LeafEntry, d: bool, n: bool, u: bool) {
    (d && l.delete) || (n && l.isNew) || (u && l.isUpdated)
  }

  function ResetCount(les: seq<LeafEntry>, d: bool, n: bool, u: bool): nat {
    if les == [] then 0
    else ResetCount(les[..|les| - 1], d, n, u) + if Resets(les[|les| - 1], d, n, u) then 1 else 0
  }

  /** Nothing is counted exactly when nothing changes. */
  lemma {:induction false} ResetCountZero(les: seq<LeafEntry>, d: bool, n: bool, u: bool)
    ensures ResetCount(les, d, n, u) == 0 <==> Reset(les, d, n, u) == les
  {
    if les != [] {
      var front := les[..|les| - 1];
      ResetCountZero(front, d, n, u);
      assert les == front + [les[|les| - 1]];
      assert Reset(les, d, n, u) == Reset(front, d, n, u) + [les[|les| - 1].ResetFlags(d, n, u)];
    }
  }

  // ---------------------------------------------------------------- the object

  datatype AddOutcome = Kept | Updated | New

  class LeafVariants {
    var les: seq<LeafEntry>

    constructor ()
      ensures les == []
    {
      les := [];
    }

    method GetByOwner(owner: string) returns (r: Option<nat>)
      ensures r == IndexOf(les, owner)
    {
      var i := 0;
      while i < |les|
        invariant 0 <= i <= |les|
        invariant forall j | 0 <= j < i :: les[j].owner != owner
      {
        if les[i].owner == owner {
          return Some(i);
        }
        i := i + 1;
      }
      return None;
    }

    method AddWithStats(le: LeafEntry) returns (outcome: AddOutcome)
      modifies this
      ensures les == Added(old(les), le)
      ensures outcome == New <==> IndexOf(old(les), le.owner).None?
      ensures outcome == Updated <==>
              IndexOf(old(les), le.owner).Some? && !ByOwner(old(les), le.owner).value.SameUpdate(le)
    {
      var i := GetByOwner(le.owner);
      if i.None? {
        les := les + [le];
        return New;
      }
      if les[i.value].SameUpdate(le) {
        les := les[i.value := les[i.value].DropDelete()];
        return Kept;
      }
      les := les[i.value := les[i.value].MarkUpdate(le)];
      return Updated;
    }

    method DeleteByOwner(owner: string) returns (gone: Option<LeafEntry>)
      modifies this
      ensures les == Removed(old(les), owner)
      ensures gone == ByOwner(old(les), owner)
    {
      var i := GetByOwner(owner);
      if i.None? {
        return None;
      }
      gone := Some(les[i.value]);
      les := les[..i.value] + les[i.value + 1..];
    }

    method RemoveDeletedByOwner(owner: string) returns (gone: Option<LeafEntry>)
      requires UniqueOwners(les)
      modifies this
      ensures les == RemovedIfDeleted(old(les), owner)
      ensures gone.Some? <==> |les| < |old(les)|
    {
      var i := 0;
      while i < |les|
        invariant 0 <= i <= |les|
        invariant les == old(les)
        invariant forall j | 0 <= j < i :: !(les[j].owner == owner && les[j].delete)
      {
        if les[i].owner == owner && les[i].delete {
          ByOwnerAt(les, i);
          gone := Some(les[i]);
          les := les[..i] + les[i + 1..];
          return;
        }
        i := i + 1;
      }
      return None;
    }

    method MarkOwnerForDeletion(owner: string, onlyIntended: bool) returns (found: bool)
      modifies this
      ensures les == Marked(old(les), owner, onlyIntended)
      ensures found <==> IndexOf(old(les), owner).Some?
    {
      var i := GetByOwner(owner);
      if i.Some? {
        les := les[i.value := les[i.value].MarkDelete(onlyIntended)];
      }
      return i.Some?;
    }

    /** Resets flags in place and counts the variants it changed. */
    method ResetFlags(d: bool, n: bool, u: bool) returns (count: nat)
      modifies this
      ensures les == Reset(old(les), d, n, u)
      ensures count == ResetCount(old(les), d, n, u)
    {
      count := 0;
      var i := 0;
      while i < |les|
        invariant 0 <= i <= |les| == |old(les)|
        invariant forall j | 0 <= j < i :: les[j] == old(les)[j].ResetFlags(d, n, u)
        invariant forall j | i <= j < |les| :: les[j] == old(les)[j]
        invariant count == ResetCount(old(les)[..i], d, n, u)
      {
        assert old(les)[..i + 1][..i] == old(les)[..i];
        if Resets(les[i], d, n, u) {
          count := count + 1;
        }
        les := les[i := les[i].ResetFlags(d, n, u)];
        i := i + 1;
      }
      assert old(les)[..i] == old(les);
    }

    method GetHighestPrecedence(onlyNewOrUpdated: bool, includeDefaults: bool, includeExplicit: bool,
                                nonRevertive: set<string>) returns (r: Option<LeafEntry>)
      ensures r == HighestPrecedence(les, onlyNewOrUpdated, includeDefaults, includeExplicit, nonRevertive)
      decreases if onlyNewOrUpdated then 2 else 0
    {
      if |les| == 0 {
        return None;
      }
      if onlyNewOrUpdated {
        var can := CanDeleteScan();
        if can {
          return None;
        }
      }
      var highest: Option<nat> := None;
      var second: Option<nat> := None;
      var i := 0;
      while i < |les|
        invariant 0 <= i <= |les|
        invariant Scan(highest, second) == ScanPrefix(les, i)
      {
        if highest.None? {
          highest := Some(i);
        } else if les[highest.value].priority > les[i].priority {
          second := highest;
          highest := Some(i);
        } else if second.None? || (les[second.value].priority > les[i].priority && !les[i].delete) {
          second := Some(i);
        }
        i := i + 1;
      }
      var h := les[highest.value];
      if h.explicitDelete && !includeExplicit {
        return None;
      }
      if !includeDefaults && h.owner == DEFAULT {
        return None;
      }
      if !onlyNewOrUpdated {
        return Some(h);
      }
      if !h.delete {
        if h.isNew || h.isUpdated {
          return Some(h);
        }
        if h.owner == RUNNING || h.owner in nonRevertive {
          return None;
        }
        var run := GetByOwner(RUNNING);
        if run.None? || les[run.value].value != h.value {
          return Some(h);
        }
        return None;
      }
      if second.Some? && !les[second.value].delete && les[second.value].owner != RUNNING {
        return Some(les[second.value]);
      }
      return None;
    }

    method CheckOnlyRunningAndMaybeDefault() returns (r: bool)
      ensures r == OnlyRunningMaybeDefault(les)
    {
      if |les| == 1 && les[0].owner == RUNNING {
        return true;
      }
      var hasRunning, hasDefault := false, false;
      if |les| == 2 {
        var i := 0;
        while i < |les|
          invariant 0 <= i <= |les|
          invariant hasRunning <==> exists j | 0 <= j < i :: les[j].owner == RUNNING
          invariant hasDefault <==> exists j | 0 <= j < i :: les[j].owner == DEFAULT
        {
          if les[i].owner == RUNNING {
            hasRunning := true;
          } else if les[i].owner == DEFAULT {
            hasDefault := true;
          }
          i := i + 1;
        }
      }
      return hasRunning && hasDefault;
    }

    method CanDeleteScan() returns (r: bool)
      ensures r == CanDelete(les)
      decreases 1
    {
      if |les| == 0 {
        return true;
      }
      var only := CheckOnlyRunningAndMaybeDefault();
      if only {
        return false;
      }
      var highest := GetHighestPrecedence(false, false, true, {});
      if highest.Some? && highest.value.explicitDelete {
        return true;
      }
      var i := 0;
      while i < |les|
        invariant 0 <= i <= |les|
        invariant forall j | 0 <= j < i :: les[j].explicitDelete || !les[j].Survives()
      {
        var l := les[i];
        if l.owner != RUNNING && l.owner != DEFAULT && !l.explicitDelete {
          if l.onlyIntended || !l.delete {
            return false;
          }
        }
        i := i + 1;
      }
      return true;
    }

    method ShouldDeleteScan() returns (r: bool)
      ensures r == ShouldDelete(les)
    {
      if |les| == 0 {
        return false;
      }
      var highest := GetHighestPrecedence(false, false, true, {});
      var run := GetByOwner(RUNNING);
      if highest.Some? && highest.value.explicitDelete && run.Some? {
        return true;
      }
      if run.None? {
        return false;
      }
      r := IntentsAllGone();
    }

    /** The loop of ShouldDelete: there are intents, and none survives. */
    method IntentsAllGone() returns (r: bool)
      ensures r == (HasIntent(les) && !HasSurvivor(les))
    {
      var foundOther := false;
      var i := 0;
      while i < |les|
        invariant 0 <= i <= |les|
        invariant foundOther <==> exists j | 0 <= j < i :: IsIntent(les[j].owner)
        invariant forall j | 0 <= j < i :: !les[j].Survives()
      {
        var l := les[i];
        if l.owner != RUNNING && l.owner != DEFAULT {
          foundOther := true;
          if l.onlyIntended || !l.delete {
            assert les[i].Survives();
            return false;
          }
        }
        i := i + 1;
      }
      return foundOther;
    }

    method RemainsToExistScan() returns (r: bool)
      ensures r == RemainsToExist(les)
    {
      if |les| == 0 {
        return false;
      }
      var highest := GetHighestPrecedence(false, false, true, {});
      if highest.None? || highest.value.explicitDelete {
        return false;
      }
      var defaultOrRunning, deleteExists := false, false;
      var i := 0;
      while i < |les|
        invariant 0 <= i <= |les|
        invariant defaultOrRunning <==> exists j | 0 <= j < i :: !IsIntent(les[j].owner)
        invariant deleteExists <==> exists j | 0 <= j < i :: IsIntent(les[j].owner)
        invariant forall j | 0 <= j < i :: !les[j].Survives()
      {
        var l := les[i];
        if l.owner == RUNNING || l.owner == DEFAULT {
          defaultOrRunning := true;
        } else {
          if !l.delete || l.onlyIntended {
            assert les[i].Survives();
            return true;
          }
          deleteExists := true;
        }
        i := i + 1;
      }
      if deleteExists {
        return false;
      }
      assert !IsIntent(les[0].owner);
      return defaultOrRunning;
    }

    method CanDeleteBranchScan(keepDefault: bool) returns (r: bool)
      ensures r == CanDeleteBranch(les, keepDefault)
    {
      if |les| == 0 {
        return true;
      }
      var highest := GetHighestPrecedence(false, false, true, {});
      if highest.Some? && highest.value.explicitDelete {
        return true;
      }
      var i := 0;
      while i < |les|
        invariant 0 <= i <= |les|
        invariant forall j | 0 <= j < i ::
                    (les[j].owner != DEFAULT || keepDefault) ==> les[j].delete && !les[j].onlyIntended
      {
        var l := les[i];
        if l.owner != DEFAULT || keepDefault {
          if l.onlyIntended || !l.delete {
            return false;
          }
        }
        i := i + 1;
      }
      return true;
    }
  }
}
