/** Looking up the active children of an entry (pkg/tree/sharedEntryAttributes.go, GetChilds): every
    look-up finds a best case of each choice anew, in random order. */
module Lookups {
  import opened Base
  import opened Tree
  import C = Choices

  /** One best case for each choice of an entry. */
  type Pick = map<string, Option<string>>

  ghost predicate Picks(e: Entry, pick: Pick) {
    pick.Keys == e.choices.Keys && forall ch | ch in e.choices :: C.IsBestCase(e.choices[ch], C.Now, pick[ch])
  }

  ghost function ActiveWith(e: Entry, pick: Pick): (names: set<string>)
    ensures names <= e.children.Keys
  {
    if e.schema.None? then e.children.Keys
    else set k | k in e.children && forall ch | ch in e.choices && ch in pick :: k !in C.SkipOf(e.choices[ch], pick[ch])
  }

  ghost function BestPick(e: Entry): (pick: Pick)
    ensures Picks(e, pick)
  {
    map ch | ch in e.choices :: C.Best(e.choices[ch], C.Now)
  }

  lemma {:induction false} PickedIsVisited(e: Entry, pick: Pick, k: string)
    requires Picks(e, pick) && k in ActiveWith(e, pick)
    ensures MayVisit(e, k)
  {
    if e.schema.Some? {
      forall ch | ch in e.choices && k in e.choices[ch].caseOf
        ensures C.IsBestCase(e.choices[ch], C.Now, Some(e.choices[ch].caseOf[k]))
      {
        assert k !in C.SkipOf(e.choices[ch], pick[ch]);
      }
    }
  }

  lemma {:induction false} MustBePicked(e: Entry, pick: Pick, k: string)
    requires Picks(e, pick) && MustVisit(e, k)
    ensures k in ActiveWith(e, pick)
  {
    if e.schema.Some? {
      forall ch | ch in e.choices ensures k !in C.SkipOf(e.choices[ch], pick[ch]) {
      }
    }
  }

  // ---------------------------------------------------------------- without ties

  ghost predicate NodeNoTie(e: Entry) {
    forall ch | ch in e.choices :: C.NoTie(e.choices[ch])
  }

  /** No choice on the active part of the tree is tied. */
  ghost predicate NoTies(e: Entry) {
    && NodeNoTie(e)
    && forall k | k in Active(e) :: NoTies(e.children[k])
  }

  lemma BestAlone(r: C.Resolver, best: Option<string>)
    requires C.NoTie(r) && C.IsBestCase(r, C.Now, best)
    ensures best == C.Best(r, C.Now)
  {
  }

  lemma {:induction false} OnePick(e: Entry, pick: Pick)
    requires NodeNoTie(e) && Picks(e, pick)
    ensures ActiveWith(e, pick) == Active(e)
  {
    forall ch | ch in e.choices ensures pick[ch] == C.Best(e.choices[ch], C.Now) {
      BestAlone(e.choices[ch], pick[ch]);
    }
  }

  /** Without ties there is one way to walk. */
  lemma OneWay(e: Entry, k: string)
    requires NodeNoTie(e)
    ensures k in Active(e) <==> MayVisit(e, k)
    ensures k in Active(e) <==> MustVisit(e, k)
  {
    OnePick(e, BestPick(e));
    if k in Active(e) {
      PickedIsVisited(e, BestPick(e), k);
      forall ch, best | e.schema.Some? && ch in e.choices && k in e.choices[ch].caseOf && C.IsBestCase(e.choices[ch], C.Now, best)
        ensures best == Some(e.choices[ch].caseOf[k])
      {
        BestAlone(e.choices[ch], best);
        assert k !in C.SkipOf(e.choices[ch], best);
      }
    }
    if MustVisit(e, k) {
      MustBePicked(e, BestPick(e), k);
    }
    if MayVisit(e, k) && e.schema.Some? {
      forall ch | ch in e.choices ensures k !in C.SkipOf(e.choices[ch], BestPick(e)[ch]) {
        if k in e.choices[ch].caseOf {
          BestAlone(e.choices[ch], Some(e.choices[ch].caseOf[k]));
        }
      }
    }
  }

  lemma {:induction false} OneWayDown(e: Entry, p: Path)
    requires NoTies(e)
    ensures ActiveAt(e, p).Some? <==> MayReach(e, p)
    ensures ActiveAt(e, p).Some? <==> MustReach(e, p)
    decreases p
  {
    if p != [] {
      OneWay(e, p[0]);
      if p[0] in Active(e) {
        OneWayDown(e.children[p[0]], p[1..]);
      }
    }
  }

  // ---------------------------------------------------------------- the look-up

  /** The elements outside the best case a scan finds. */
  method SkipElements(r: C.Resolver) returns (skip: set<string>, ghost now: Option<string>)
    ensures C.IsBestCase(r, C.Now, now) && skip == C.SkipOf(r, now)
  {
    var found, _ := C.GetBestCases(r);
    now := found;
    skip := set el | el in r.caseOf && Some(r.caseOf[el]) != found;
  }

  /** The children a walk visits, with choices resolved by a scan in any order. */
  method ActiveNames(e: Entry) returns (names: set<string>, ghost pick: Pick)
    ensures Picks(e, pick) && names == ActiveWith(e, pick)
    ensures forall k | k in names :: MayVisit(e, k)
    ensures forall k | MustVisit(e, k) :: k in names
  {
    names := e.children.Keys;
    pick := BestPick(e);
    if e.schema.Some? {
      var skip;
      skip, pick := AllSkipped(e);
      names := names - skip;
    }
    forall k | k in names ensures MayVisit(e, k) {
      PickedIsVisited(e, pick, k);
    }
    forall k | MustVisit(e, k) ensures k in names {
      MustBePicked(e, pick, k);
    }
  }

  method AllSkipped(e: Entry) returns (skip: set<string>, ghost pick: Pick)
    ensures Picks(e, pick)
    ensures forall k :: k in skip <==> exists ch :: ch in e.choices && k in C.SkipOf(e.choices[ch], pick[ch])
  {
    skip, pick := {}, map[];
    var todo := e.choices.Keys;
    while todo != {}
      invariant todo <= e.choices.Keys && pick.Keys == e.choices.Keys - todo
      invariant forall ch | ch in pick :: C.IsBestCase(e.choices[ch], C.Now, pick[ch])
      invariant forall k :: k in skip <==> exists ch :: ch in pick && k in C.SkipOf(e.choices[ch], pick[ch])
      decreases todo
    {
      var ch :| ch in todo;
      ghost var now;
      var more;
      more, now := SkipElements(e.choices[ch]);
      skip, pick := skip + more, pick[ch := now];
      todo := todo - {ch};
    }
  }
}
