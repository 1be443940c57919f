/** Ties between choice cases. The best case is looked up anew, in random order, at every call, so
    every call may break a tie its own way. A `Breaks` says how each call at each entry does; the
    decisions and the two southbound walks are then as in the other modules, but each on its own. */
module Ties {
  import opened Base
  import opened Tree
  import opened Southbound
  import R = Resolution
  import C = Choices
  import L = Leaves
  import P = Precedence
  import Lookups
  import F = ConflictFree

  type Break = (Path, string) -> Option<string>

  /** The best case now as CanDelete, ShouldDelete, RemainsToExist, the walk for deletes and the
      walk for updates see it at an entry and choice, and the best case before as the walk for
      deletes sees it. */
  datatype Breaks = Breaks(can: Break, should: Break, remains: Break, now: Break, before: Break, update: Break)

  ghost predicate Admits(e: Entry, at: Path, b: Break, m: C.Moment) {
    forall ch | ch in e.choices :: C.IsBestCase(e.choices[ch], m, b(at, ch))
  }

  /** At an entry every call gets a best case, and the walk for deletes both of its cases from
      one pass. */
  ghost predicate FairHere(e: Entry, at: Path, bs: Breaks) {
    && Admits(e, at, bs.can, C.Now) && Admits(e, at, bs.should, C.Now) && Admits(e, at, bs.remains, C.Now)
    && Admits(e, at, bs.update, C.Now)
    && forall ch | ch in e.choices :: C.OnePass(e.choices[ch], bs.now(at, ch), bs.before(at, ch))
  }

  ghost predicate Fair(e: Entry, at: Path, bs: Breaks) {
    FairHere(e, at, bs) && forall k | k in e.children :: Fair(e.children[k], at + [k], bs)
  }

  ghost function ActiveBy(e: Entry, at: Path, b: Break): (names: set<string>)
    ensures names <= e.children.Keys
  {
    if e.schema.None? then e.children.Keys
    else set k | k in e.children && forall ch | ch in e.choices :: k !in C.SkipOf(e.choices[ch], b(at, ch))
  }

  ghost predicate CanDeleteBy(e: Entry, at: Path, bs: Breaks) {
    && L.CanDelete(e.les)
    && forall k | k in ActiveBy(e, at, bs.can) :: CanDeleteBy(e.children[k], at + [k], bs)
  }

  ghost predicate ShouldDeleteBy(e: Entry, at: Path, bs: Breaks) {
    || L.ShouldDelete(e.les)
    || (&& L.CanDelete(e.les)
        && var act := ActiveBy(e, at, bs.should);
           if act == {} then e.choices != map[]
           else
             && (forall k | k in act :: CanDeleteBy(e.children[k], at + [k], bs))
             && (exists k | k in act :: ShouldDeleteBy(e.children[k], at + [k], bs)))
  }

  ghost predicate RemainsBy(e: Entry, at: Path, bs: Breaks) {
    || L.RemainsToExist(e.les)
    || exists k | k in ActiveBy(e, at, bs.remains) :: RemainsBy(e.children[k], at + [k], bs)
  }

  ghost predicate KeysGoAwayBy(e: Entry, at: Path, keys: seq<string>, bs: Breaks) {
    forall n | n in keys && n in e.children :: ShouldDeleteBy(e.children[n], at + [n], bs)
  }

  ghost predicate DeletedWholeBy(e: Entry, at: Path, pl: Place, aggregate: bool, bs: Breaks) {
    if aggregate && IsListElement(e, pl) then KeysGoAwayBy(e, at, pl.keys, bs)
    else ShouldDeleteBy(e, at, bs) && !pl.root && Keys(e) == []
  }

  ghost predicate ChoiceDeletesBy(e: Entry, at: Path, bs: Breaks, el: string) {
    exists ch | ch in e.choices :: el in C.DeletesOf(e.choices[ch], bs.now(at, ch), bs.before(at, ch))
  }

  /** The walk for deletes, at an entry found at `at`, emits the path d below it. */
  ghost predicate EmitsDelete(e: Entry, at: Path, pl: Place, aggregate: bool, bs: Breaks, d: Path)
    decreases d
  {
    if DeletedWholeBy(e, at, pl, aggregate, bs) then d == []
    else
      && d != []
      && (|| (|d| == 1 && !(aggregate && IsListElement(e, pl)) && ChoiceDeletesBy(e, at, bs, d[0]))
          || (d[0] in e.children && EmitsDelete(e.children[d[0]], at + [d[0]], Below(e, pl), aggregate, bs, d[1..])))
  }

  /** The walk for updates, at an entry found at `at`, emits u for the path p below it. */
  ghost predicate EmitsUpdate(e: Entry, at: Path, bs: Breaks, p: Path, u: L.LeafEntry)
    decreases p
  {
    if p == [] then P.LeafUpdate(e.les, e.nonRevertive) == Some(u)
    else p[0] in ActiveBy(e, at, bs.update) && EmitsUpdate(e.children[p[0]], at + [p[0]], bs, p[1..], u)
  }

  // ---------------------------------------------------------------- without ties all calls agree

  /** Without ties every way of breaking them is the same: nothing is broken. */
  lemma {:induction false} ActiveByOneWay(e: Entry, at: Path, b: Break)
    requires Lookups.NodeNoTie(e) && Admits(e, at, b, C.Now)
    ensures ActiveBy(e, at, b) == Active(e)
  {
    if e.schema.Some? {
      forall ch | ch in e.choices ensures b(at, ch) == C.Best(e.choices[ch], C.Now) {
        Lookups.BestAlone(e.choices[ch], b(at, ch));
      }
      forall k | k in e.children ensures k in C.Skip(e.choices) <==> exists ch :: ch in e.choices && k in C.SkipOf(e.choices[ch], b(at, ch)) {
      }
    }
  }

  lemma {:induction false} CanDeleteByOneWay(e: Entry, at: Path, bs: Breaks)
    requires Lookups.NoTies(e) && Fair(e, at, bs)
    ensures CanDeleteBy(e, at, bs) <==> CanDelete(e)
  {
    ActiveByOneWay(e, at, bs.can);
    forall k | k in Active(e) ensures CanDeleteBy(e.children[k], at + [k], bs) <==> CanDelete(e.children[k]) {
      CanDeleteByOneWay(e.children[k], at + [k], bs);
    }
  }

  lemma {:induction false} ShouldDeleteByOneWay(e: Entry, at: Path, bs: Breaks)
    requires Lookups.NoTies(e) && Fair(e, at, bs)
    ensures ShouldDeleteBy(e, at, bs) <==> ShouldDelete(e)
  {
    ActiveByOneWay(e, at, bs.should);
    forall k | k in Active(e)
      ensures CanDeleteBy(e.children[k], at + [k], bs) <==> CanDelete(e.children[k])
      ensures ShouldDeleteBy(e.children[k], at + [k], bs) <==> ShouldDelete(e.children[k])
    {
      CanDeleteByOneWay(e.children[k], at + [k], bs);
      ShouldDeleteByOneWay(e.children[k], at + [k], bs);
    }
  }

  lemma {:induction false} UpdateIsActive(e: Entry, at: Path, bs: Breaks, p: Path, u: L.LeafEntry)
    requires Lookups.NoTies(e) && Fair(e, at, bs) && EmitsUpdate(e, at, bs, p, u)
    ensures ActiveAt(e, p).Some? && P.LeafUpdate(ActiveAt(e, p).value.les, ActiveAt(e, p).value.nonRevertive) == Some(u)
    decreases p
  {
    if p != [] {
      ActiveByOneWay(e, at, bs.update);
      UpdateIsActive(e.children[p[0]], at + [p[0]], bs, p[1..], u);
    }
  }

  /** What the walk for deletes takes away of a choice, the walk for updates does not enter. */
  lemma {:induction false} ChoiceDeleteNotWalked(e: Entry, at: Path, bs: Breaks, el: string)
    requires F.ResolversOk(e) && Lookups.NodeNoTie(e) && Fair(e, at, bs) && ChoiceDeletesBy(e, at, bs, el)
    ensures el !in ActiveBy(e, at, bs.update)
  {
    var ch :| ch in e.choices && el in C.DeletesOf(e.choices[ch], bs.now(at, ch), bs.before(at, ch));
    C.LosingCaseSkipped(e.choices[ch], bs.now(at, ch), bs.before(at, ch), el);
    Lookups.BestAlone(e.choices[ch], bs.now(at, ch));
    Lookups.BestAlone(e.choices[ch], bs.update(at, ch));
  }

  /** An entry above an update is not deleted as a whole. */
  lemma {:induction false} UpdatedNotWhole(e: Entry, at: Path, pl: Place, aggregate: bool, bs: Breaks, p: Path, u: L.LeafEntry)
    requires LeavesOk(e) && NoPresenceConflict(e) && Lookups.NoTies(e) && Fair(e, at, bs)
    requires aggregate ==> F.KeysGuarded(e, pl)
    requires EmitsUpdate(e, at, bs, p, u)
    ensures !DeletedWholeBy(e, at, pl, aggregate, bs)
  {
    UpdateIsActive(e, at, bs, p, u);
    var n := ActiveAt(e, p).value;
    LeavesOkAt(e, p);
    F.UpdateNeedsSurvivor(n.les, n.nonRevertive);
    if aggregate && IsListElement(e, pl) {
      F.GuardedElementStays(e, pl, p);
      forall k | k in e.children ensures ShouldDeleteBy(e.children[k], at + [k], bs) <==> ShouldDelete(e.children[k]) {
        ShouldDeleteByOneWay(e.children[k], at + [k], bs);
      }
    } else if ShouldDelete(e) {
      ShouldDeleteLicensed(e, p);
      assert false;
    } else {
      ShouldDeleteByOneWay(e, at, bs);
    }
  }

  /** Conflict freedom: if no choice on the active part of the tree is tied, no update lies at or
      below a delete, be it regular, aggregated by key, or of a changed choice case; explicit
      deletes, orphans and sent defaults included. */
  lemma {:induction false} ConflictFreedom(e: Entry, at: Path, pl: Place, aggregate: bool, bs: Breaks, d: Path, p: Path, u: L.LeafEntry)
    requires LeavesOk(e) && NoPresenceConflict(e) && F.ResolversOk(e) && Lookups.NoTies(e) && Fair(e, at, bs)
    requires aggregate ==> F.KeysGuarded(e, pl)
    requires EmitsDelete(e, at, pl, aggregate, bs, d) && EmitsUpdate(e, at, bs, p, u)
    ensures !(d <= p)
    decreases p
  {
    UpdatedNotWhole(e, at, pl, aggregate, bs, p, u);
    if d <= p {
      ActiveByOneWay(e, at, bs.update);
      if |d| == 1 && ChoiceDeletesBy(e, at, bs, d[0]) {
        ChoiceDeleteNotWalked(e, at, bs, d[0]);
      } else {
        ConflictFreedom(e.children[d[0]], at + [d[0]], Below(e, pl), aggregate, bs, d[1..], p[1..], u);
      }
    }
  }

  // ---------------------------------------------------------------- what a look-up after the insertion phase sees

  /** Any active element of a choice belongs to the best case the look-up found. */
  lemma {:induction false} ActiveInFoundCase(e: Entry, at: Path, b: Break, ch: string, el: string)
    requires ch in e.choices && e.schema.Some? && el in ActiveBy(e, at, b) && el in e.choices[ch].caseOf
    ensures b(at, ch) == Some(e.choices[ch].caseOf[el])
  {
    assert el !in C.SkipOf(e.choices[ch], b(at, ch));
  }

  /** Whatever best case a look-up finds, the active children include elements of one case at most. */
  lemma {:induction false} OneCaseActive(e: Entry, at: Path, b: Break, ch: string, x: string, y: string)
    requires R.ChoiceShape(e, ch) && x in e.choices[ch].caseOf && y in e.choices[ch].caseOf
    requires x in ActiveBy(R.Populate(e), at, b) && y in ActiveBy(R.Populate(e), at, b)
    ensures e.choices[ch].caseOf[x] == e.choices[ch].caseOf[y]
  {
    R.PopulatedValid(e, ch);
    ActiveInFoundCase(R.Populate(e), at, b, ch, x);
    ActiveInFoundCase(R.Populate(e), at, b, ch, y);
  }

  /** The case it finds attains the least counted priority of the whole choice. */
  lemma {:induction false} ActiveCaseAttainsMinimum(e: Entry, at: Path, b: Break, ch: string, x: string, el: string, v: R.Prio) returns (z: string)
    requires R.ChoiceShape(e, ch) && Admits(R.Populate(e), at, b, C.Now)
    requires x in e.choices[ch].caseOf && x in ActiveBy(R.Populate(e), at, b)
    requires el in e.choices[ch].caseOf && el in e.children && v in R.PrioSet(e.children[el], C.Now)
    ensures z in e.children && z in e.choices[ch].cases[e.choices[ch].caseOf[x]]
    ensures R.Least(R.PrioSet(e.children[z], C.Now)) <= v.v && R.Prio(R.Least(R.PrioSet(e.children[z], C.Now))) in R.PrioSet(e.children[z], C.Now)
  {
    R.PopulatedValid(e, ch);
    var r := R.Populate(e).choices[ch];
    ActiveInFoundCase(R.Populate(e), at, b, ch, x);
    R.MeasuredNow(e, ch, el);
    CaseAtMost(r, r.caseOf[el], el);
    z := FoundAttains(r, r.caseOf[x], r.caseOf[el]);
    R.MeasuredNow(e, ch, z);
  }

  lemma {:induction false} FoundAttains(r: C.Resolver, best: string, c: string) returns (z: string)
    requires C.Valid(r) && C.IsBestCase(r, C.Now, Some(best)) && c in r.cases
    ensures z in r.caseOf && z in r.cases[best] && C.PrioOf(r, z, C.Now) <= C.CaseMin(r, c, C.Now) && C.PrioOf(r, z, C.Now) < MAX_PRIO
  {
    var w := C.CaseMin(r, best, C.Now);
    assert C.IsMinOver(r, r.cases[best], C.Now, w);
    z :| z in r.cases[best] && C.PrioOf(r, z, C.Now) == w;
  }

  /** A choice in which nothing is counted has all its elements skipped by every look-up; otherwise
      every look-up finds a case. */
  lemma {:induction false} EmptyChoiceSkipped(e: Entry, at: Path, b: Break, ch: string)
    requires R.ChoiceShape(e, ch) && Admits(R.Populate(e), at, b, C.Now)
    requires forall el, v | el in e.choices[ch].caseOf && el in e.children && v in R.PrioSet(e.children[el], C.Now) :: v.v < MAX_PRIO
    ensures b(at, ch).None? <==> forall el | el in e.choices[ch].caseOf && el in e.children :: R.PrioSet(e.children[el], C.Now) == {}
    ensures b(at, ch).None? ==> forall el | el in e.choices[ch].caseOf :: el !in ActiveBy(R.Populate(e), at, b)
  {
    R.PopulatedValid(e, ch);
    var r := R.Populate(e).choices[ch];
    if b(at, ch).None? {
      forall el | el in r.caseOf && el in e.children ensures R.PrioSet(e.children[el], C.Now) == {} {
        R.MeasuredNow(e, ch, el);
        CaseAtMost(r, r.caseOf[el], el);
      }
      forall el | el in r.caseOf ensures el !in ActiveBy(R.Populate(e), at, b) {
        assert el in C.SkipOf(r, b(at, ch));
      }
    } else {
      var z := FoundAttains(r, b(at, ch).value, b(at, ch).value);
      R.MeasuredNow(e, ch, z);
      assert R.Prio(R.Least(R.PrioSet(e.children[z], C.Now))) in R.PrioSet(e.children[z], C.Now);
    }
  }

  // ---------------------------------------------------------------- with ties: what must stay

  ghost function BranchNumber(e: Entry, el: string, m: C.Moment): int {
    if el in e.children then R.Least(R.PrioSet(e.children[el], m)) else MAX_PRIO
  }

  /** The numbers of the choices are those of their branches. */
  ghost predicate MeasuredHere(e: Entry) {
    forall ch, el | ch in e.choices && el in e.choices[ch].caseOf ::
      && C.PrioOf(e.choices[ch], el, C.Now) == BranchNumber(e, el, C.Now)
      && C.PrioOf(e.choices[ch], el, C.Before) == BranchNumber(e, el, C.Before)
  }

  /** An element belongs to one choice. */
  ghost predicate OneChoiceEach(e: Entry) {
    forall ch, ch', el | ch in e.choices && ch' in e.choices && el in e.choices[ch].caseOf && el in e.choices[ch'].caseOf :: ch == ch'
  }

  /** A measured tree without explicit deletes whose presence containers hold either a value that
      is to be deleted or children. */
  ghost predicate Regular(e: Entry) {
    && L.WellFormed(e.les) && (forall i | 0 <= i < |e.les| :: !e.les[i].explicitDelete)
    && (L.ShouldDelete(e.les) ==> e.children == map[])
    && (e.choices != map[] ==> e.schema.Some?)
    && (forall ch | ch in e.choices :: C.Valid(e.choices[ch]))
    && MeasuredHere(e) && OneChoiceEach(e)
    && forall k | k in e.children :: Regular(e.children[k])
  }

  /** Whoever keeps something below a list element keeps every key leaf of that element. */
  ghost predicate KeysHeld(e: Entry, pl: Place) {
    && (IsListElement(e, pl) ==>
          forall p, owner | At(e, p).Some? && F.SurvivesIn(At(e, p).value, owner) :: F.KeysKept(e, pl.keys, owner))
    && forall k | k in e.children :: KeysHeld(e.children[k], Below(e, pl))
  }

  ghost function Number(e: Entry): int {
    R.Least(R.PrioSet(e, C.Now))
  }

  lemma {:induction false} NumberOfChild(e: Entry, k: string)
    requires k in e.children
    ensures Number(e) <= Number(e.children[k])
  {
    var n := Number(e.children[k]);
    if n < MAX_PRIO {
      assert R.Prio(n) in R.PrioSet(e, C.Now);
    }
  }

  /** However the tie breaks, an active child is at least as good as any given one. */
  lemma {:induction false} PickedIsAsGood(e: Entry, at: Path, b: Break, y: string) returns (z: string)
    requires Regular(e) && Admits(e, at, b, C.Now) && y in e.children && Number(e.children[y]) < MAX_PRIO
    ensures z in ActiveBy(e, at, b) && Number(e.children[z]) <= Number(e.children[y])
  {
    if y in ActiveBy(e, at, b) {
      z := y;
    } else {
      var ch :| ch in e.choices && y in C.SkipOf(e.choices[ch], b(at, ch));
      z := BestElement(e, at, b, ch, y);
      forall ch' | ch' in e.choices ensures z !in C.SkipOf(e.choices[ch'], b(at, ch')) {
        assert z in e.choices[ch].caseOf;
      }
    }
  }

  /** The element that gives the picked case its number. */
  lemma {:induction false} BestElement(e: Entry, at: Path, b: Break, ch: string, y: string) returns (z: string)
    requires ch in e.choices && C.Valid(e.choices[ch]) && MeasuredHere(e) && C.IsBestCase(e.choices[ch], C.Now, b(at, ch))
    requires y in e.choices[ch].caseOf && y in e.children && Number(e.children[y]) < MAX_PRIO
    ensures z in e.children && z in e.choices[ch].caseOf && b(at, ch) == Some(e.choices[ch].caseOf[z])
    ensures Number(e.children[z]) <= Number(e.children[y])
  {
    MeasuredAt(e, ch, y);
    z := BestHasElement(e.choices[ch], b(at, ch), y);
    MeasuredAt(e, ch, z);
  }

  lemma {:induction false} MeasuredAt(e: Entry, ch: string, el: string)
    requires ch in e.choices && MeasuredHere(e) && el in e.choices[ch].caseOf
    ensures C.PrioOf(e.choices[ch], el, C.Now) == if el in e.children then Number(e.children[el]) else MAX_PRIO
  {
    assert C.PrioOf(e.choices[ch], el, C.Now) == BranchNumber(e, el, C.Now);
  }

  lemma {:induction false} BestHasElement(r: C.Resolver, best: Option<string>, y: string) returns (z: string)
    requires C.Valid(r) && C.IsBestCase(r, C.Now, best) && y in r.caseOf && C.PrioOf(r, y, C.Now) < MAX_PRIO
    ensures z in r.caseOf && best == Some(r.caseOf[z]) && C.PrioOf(r, z, C.Now) <= C.PrioOf(r, y, C.Now)
  {
    CaseAtMost(r, r.caseOf[y], y);
    z := CaseAttains(r, r.caseOf[y], best);
  }

  lemma {:induction false} CaseAtMost(r: C.Resolver, c: string, y: string)
    requires c in r.cases && y in r.cases[c]
    ensures C.CaseMin(r, c, C.Now) <= C.PrioOf(r, y, C.Now)
  {
  }

  lemma {:induction false} CaseAttains(r: C.Resolver, c: string, best: Option<string>) returns (z: string)
    requires C.IsBestCase(r, C.Now, best) && c in r.cases && C.CaseMin(r, c, C.Now) < MAX_PRIO
    ensures best.Some? && best.value in r.cases && z in r.cases[best.value] && C.PrioOf(r, z, C.Now) <= C.CaseMin(r, c, C.Now)
  {
    var w := C.CaseMin(r, best.value, C.Now);
    assert C.IsMinOver(r, r.cases[best.value], C.Now, w);
    z :| z in r.cases[best.value] && C.PrioOf(r, z, C.Now) == w;
  }

  /** A live intent is a survivor. */
  lemma {:induction false} LiveIntentStays(e: Entry, i: nat)
    requires Regular(e) && i < |e.les| && R.Counts(e.les[i], C.Now) && e.les[i].priority < RUNNING_PRIO
    ensures !L.CanDelete(e.les)
  {
    assert L.PrioOk(e.les[i]);
    assert e.les[i].Survives();
    L.CanDeleteMeaning(e.les);
  }

  /** Whatever may be deleted, however ties break, holds no live intent of best number. */
  lemma {:induction false} DeletableHasNoIntent(e: Entry, at: Path, bs: Breaks)
    requires Regular(e) && Fair(e, at, bs) && CanDeleteBy(e, at, bs)
    ensures Number(e) >= RUNNING_PRIO
    decreases e
  {
    var m := Number(e);
    if m < RUNNING_PRIO {
      assert R.Prio(m) in R.PrioSet(e, C.Now);
      if R.Prio(m) in R.LeafPrios(e.les, |e.les|, C.Now) {
        var i: nat :| i < |e.les| && R.Counts(e.les[i], C.Now) && e.les[i].priority == m;
        LiveIntentStays(e, i);
      } else {
        var y :| y in e.children && R.Prio(m) in R.PrioSet(e.children[y], C.Now);
        assert Number(e.children[y]) <= m;
        var z := PickedIsAsGood(e, at, bs.can, y);
        DeletableHasNoIntent(e.children[z], at + [z], bs);
      }
    }
  }

  /** An intent's update counts for its branch. */
  lemma {:induction false} UpdateCounts(e: Entry, at: Path, bs: Breaks, p: Path, u: L.LeafEntry)
    requires Regular(e) && EmitsUpdate(e, at, bs, p, u) && IsIntent(u.owner)
    ensures Number(e) < RUNNING_PRIO
    decreases p
  {
    if p == [] {
      SentIsLive(e.les, e.nonRevertive, u);
      var i: nat :| i < |e.les| && e.les[i] == u;
      assert L.PrioOk(e.les[i]) && R.Counts(e.les[i], C.Now);
      assert R.Prio(u.priority) in R.LeafPrios(e.les, |e.les|, C.Now);
      assert R.Prio(u.priority) in R.PrioSet(e, C.Now);
    } else {
      UpdateCounts(e.children[p[0]], at + [p[0]], bs, p[1..], u);
      NumberOfChild(e, p[0]);
    }
  }

  lemma {:induction false} SentIsLive(les: seq<L.LeafEntry>, nonRevertive: set<string>, u: L.LeafEntry)
    requires P.LeafUpdate(les, nonRevertive) == Some(u)
    ensures u in les && !u.delete && !L.CanDelete(les)
  {
  }

  /** With an intent's update below it no entry is to be deleted, however ties break. */
  lemma {:induction false} UpdatedShouldNotGo(e: Entry, at: Path, bs: Breaks, p: Path, u: L.LeafEntry)
    requires Regular(e) && Fair(e, at, bs) && EmitsUpdate(e, at, bs, p, u) && IsIntent(u.owner)
    ensures !ShouldDeleteBy(e, at, bs)
  {
    L.LeafAlgebra(e.les);
    if p == [] {
      SentIsLive(e.les, e.nonRevertive, u);
    } else {
      var k := p[0];
      UpdateCounts(e.children[k], at + [k], bs, p[1..], u);
      var z := PickedIsAsGood(e, at, bs.should, k);
      if CanDeleteBy(e.children[z], at + [z], bs) {
        DeletableHasNoIntent(e.children[z], at + [z], bs);
      }
    }
  }

  lemma {:induction false} UpdateAtPlace(e: Entry, at: Path, bs: Breaks, p: Path, u: L.LeafEntry)
    requires EmitsUpdate(e, at, bs, p, u)
    ensures At(e, p).Some? && P.LeafUpdate(At(e, p).value.les, At(e, p).value.nonRevertive) == Some(u)
    decreases p
  {
    if p != [] {
      UpdateAtPlace(e.children[p[0]], at + [p[0]], bs, p[1..], u);
    }
  }

  lemma {:induction false} RegularAt(e: Entry, p: Path)
    requires Regular(e) && At(e, p).Some?
    ensures Regular(At(e, p).value)
    decreases p
  {
    if p != [] {
      RegularAt(e.children[p[0]], p[1..]);
    }
  }

  /** A key leaf its owner keeps is not to be deleted. */
  lemma {:induction false} KeptKeyStaysBy(e: Entry, at: Path, bs: Breaks, owner: string)
    requires Regular(e) && F.PlainLeaf(e) && F.SurvivesIn(e, owner)
    ensures !ShouldDeleteBy(e, at, bs)
  {
    L.CanDeleteMeaning(e.les);
    assert ActiveBy(e, at, bs.should) == {};
  }

  lemma {:induction false} UpdatedNotWholeBy(e: Entry, at: Path, pl: Place, aggregate: bool, bs: Breaks, p: Path, u: L.LeafEntry)
    requires Regular(e) && Fair(e, at, bs) && (aggregate ==> KeysHeld(e, pl))
    requires EmitsUpdate(e, at, bs, p, u) && IsIntent(u.owner)
    ensures !DeletedWholeBy(e, at, pl, aggregate, bs)
  {
    UpdatedShouldNotGo(e, at, bs, p, u);
    if aggregate && IsListElement(e, pl) {
      UpdateAtPlace(e, at, bs, p, u);
      RegularAt(e, p);
      var n := At(e, p).value;
      F.UpdateNeedsSurvivor(n.les, n.nonRevertive);
      var i :| 0 <= i < |n.les| && n.les[i].Survives();
      assert F.SurvivesIn(n, n.les[i].owner);
      var key := pl.keys[0];
      assert key in pl.keys && F.KeysKept(e, pl.keys, n.les[i].owner);
      KeptKeyStaysBy(e.children[key], at + [key], bs, n.les[i].owner);
    }
  }

  // ---------------------------------------------------------------- conflicts are ties

  /** The case of el is best before and now; another one is best now too, but was not before. */
  ghost predicate TiedWith(r: C.Resolver, el: string, other: string) {
    && el in r.caseOf
    && C.IsBestCase(r, C.Before, Some(r.caseOf[el])) && C.IsBestCase(r, C.Now, Some(r.caseOf[el]))
    && C.IsBestCase(r, C.Now, Some(other)) && !C.IsBestCase(r, C.Before, Some(other))
  }

  ghost predicate TiedCase(e: Entry, el: string) {
    exists ch, other :: ch in e.choices && TiedWith(e.choices[ch], el, other)
  }

  lemma {:induction false} ChoiceConflictIsTie(e: Entry, at: Path, bs: Breaks, el: string)
    requires Regular(e) && Fair(e, at, bs) && ChoiceDeletesBy(e, at, bs, el) && el in ActiveBy(e, at, bs.update)
    ensures TiedCase(e, el)
  {
    var ch :| ch in e.choices && el in C.DeletesOf(e.choices[ch], bs.now(at, ch), bs.before(at, ch));
    DisagreementIsTie(e.choices[ch], bs.now(at, ch), bs.before(at, ch), bs.update(at, ch), el);
    assert TiedWith(e.choices[ch], el, bs.now(at, ch).value);
  }

  /** Two looks at one resolver disagree about el. */
  lemma {:induction false} DisagreementIsTie(r: C.Resolver, now: Option<string>, before: Option<string>, update: Option<string>, el: string)
    requires C.Valid(r) && el in C.DeletesOf(r, now, before) && el !in C.SkipOf(r, update)
    requires C.OnePass(r, now, before) && C.IsBestCase(r, C.Now, update)
    ensures now.Some? && TiedWith(r, el, now.value)
  {
    DeletedCase(r, now, before, el);
    BothFound(r, update, now);
  }

  lemma {:induction false} DeletedCase(r: C.Resolver, now: Option<string>, before: Option<string>, el: string)
    requires C.Valid(r) && el in C.DeletesOf(r, now, before)
    ensures el in r.caseOf && before == Some(r.caseOf[el]) && now != before
  {
  }

  lemma {:induction false} BothFound(r: C.Resolver, best: Option<string>, best': Option<string>)
    requires C.IsBestCase(r, C.Now, best) && C.IsBestCase(r, C.Now, best') && best.Some?
    ensures best'.Some?
  {
  }

  /** Every conflict with an intent's update comes from a tied choice on the way to it. */
  lemma {:induction false} ConflictIsTie(e: Entry, at: Path, pl: Place, aggregate: bool, bs: Breaks, d: Path, p: Path, u: L.LeafEntry)
    returns (q: Path)
    requires Regular(e) && Fair(e, at, bs) && (aggregate ==> KeysHeld(e, pl))
    requires EmitsDelete(e, at, pl, aggregate, bs, d) && EmitsUpdate(e, at, bs, p, u) && IsIntent(u.owner) && d <= p
    ensures TieOnTheWay(e, p, q)
    decreases p
  {
    UpdatedNotWholeBy(e, at, pl, aggregate, bs, p, u);
    if |d| == 1 && !(aggregate && IsListElement(e, pl)) && ChoiceDeletesBy(e, at, bs, d[0]) {
      q := [];
      ChoiceConflictIsTie(e, at, bs, d[0]);
    } else {
      var q' := ConflictIsTie(e.children[d[0]], at + [d[0]], Below(e, pl), aggregate, bs, d[1..], p[1..], u);
      q := [p[0]] + q';
      TieFromBelow(e, p, q');
    }
  }

  /** A tied choice at q, on the way to p. */
  ghost predicate TieOnTheWay(e: Entry, p: Path, q: Path) {
    q < p && At(e, q).Some? && TiedCase(At(e, q).value, p[|q|])
  }

  lemma {:induction false} TieFromBelow(e: Entry, p: Path, q: Path)
    requires p != [] && p[0] in e.children && TieOnTheWay(e.children[p[0]], p[1..], q)
    ensures TieOnTheWay(e, p, [p[0]] + q)
  {
    var kq := [p[0]] + q;
    assert kq[1..] == q && p[|kq|] == p[1..][|q|];
  }

  // ---------------------------------------------------------------- ties are conflicts

  ghost function BestAt(e: Entry): Break {
    (p: Path, ch: string) =>
      if At(e, p).Some? && ch in At(e, p).value.choices then C.Best(At(e, p).value.choices[ch], C.Now) else None
  }

  /** What one pass finds, now and before. */
  ghost function PairAt(e: Entry, m: C.Moment): Break {
    (p: Path, ch: string) =>
      if At(e, p).Some? && ch in At(e, p).value.choices
      then (if m.Now? then C.BestPair(At(e, p).value.choices[ch]).0 else C.BestPair(At(e, p).value.choices[ch]).1)
      else None
  }

  /** The walk for updates follows p wherever p enters a choice. */
  ghost function Following(e: Entry, p: Path): Break {
    (x: Path, ch: string) =>
      if x < p && At(e, x).Some? && ch in At(e, x).value.choices && p[|x|] in At(e, x).value.choices[ch].caseOf
      then Some(At(e, x).value.choices[ch].caseOf[p[|x|]]) else BestAt(e)(x, ch)
  }

  /** One call at one entry gets another answer. */
  ghost function Except(b: Break, q: Path, ch: string, c: string): Break {
    (x: Path, y: string) => if x == q && y == ch then Some(c) else b(x, y)
  }

  /** The unlucky breaks: the walk for deletes sees the other case, the walk for updates follows p. */
  ghost function Unlucky(e: Entry, q: Path, ch: string, mine: string, other: string, p: Path): Breaks {
    Breaks(BestAt(e), BestAt(e), BestAt(e), Except(PairAt(e, C.Now), q, ch, other),
           Except(PairAt(e, C.Before), q, ch, mine), Following(e, p))
  }

  /** A break that is admissible at every entry of the tree. */
  ghost predicate AdmitsAll(e: Entry, b: Break) {
    forall x, ch | At(e, x).Some? && ch in At(e, x).value.choices :: C.IsBestCase(At(e, x).value.choices[ch], C.Now, b(x, ch))
  }

  ghost predicate OnePassAll(e: Entry, now: Break, before: Break) {
    forall x, ch | At(e, x).Some? && ch in At(e, x).value.choices :: C.OnePass(At(e, x).value.choices[ch], now(x, ch), before(x, ch))
  }

  lemma {:induction false} FairEverywhere(root: Entry, e: Entry, at: Path, bs: Breaks)
    requires At(root, at) == Some(e)
    requires AdmitsAll(root, bs.can) && AdmitsAll(root, bs.should) && AdmitsAll(root, bs.remains) && AdmitsAll(root, bs.update)
    requires OnePassAll(root, bs.now, bs.before)
    ensures Fair(e, at, bs)
    decreases e
  {
    forall k | k in e.children ensures Fair(e.children[k], at + [k], bs) {
      AtChild(root, at, k);
      FairEverywhere(root, e.children[k], at + [k], bs);
    }
  }

  lemma {:induction false} MayReachStep(e: Entry, p: Path, x: Path)
    requires MayReach(e, p) && x < p
    ensures At(e, x).Some? && MayVisit(At(e, x).value, p[|x|])
    decreases p
  {
    if x != [] {
      MayReachStep(e.children[p[0]], p[1..], x[1..]);
    }
  }

  lemma {:induction false} BestAdmits(e: Entry)
    ensures AdmitsAll(e, BestAt(e))
  {
  }

  lemma {:induction false} PairAdmits(e: Entry, q: Path, ch: string, mine: string, other: string)
    requires At(e, q).Some? && ch in At(e, q).value.choices && C.OnePass(At(e, q).value.choices[ch], Some(other), Some(mine))
    ensures OnePassAll(e, Except(PairAt(e, C.Now), q, ch, other), Except(PairAt(e, C.Before), q, ch, mine))
  {
    forall x, y | At(e, x).Some? && y in At(e, x).value.choices
      ensures C.OnePass(At(e, x).value.choices[y], Except(PairAt(e, C.Now), q, ch, other)(x, y), Except(PairAt(e, C.Before), q, ch, mine)(x, y))
    {
      if !(x == q && y == ch) {
        var pair := C.BestPair(At(e, x).value.choices[y]);
        assert PairAt(e, C.Now)(x, y) == pair.0 && PairAt(e, C.Before)(x, y) == pair.1;
      }
    }
  }

  lemma {:induction false} FollowingAdmits(e: Entry, p: Path)
    requires Regular(e) && MayReach(e, p)
    ensures AdmitsAll(e, Following(e, p))
  {
    BestAdmits(e);
    forall x, ch | At(e, x).Some? && ch in At(e, x).value.choices
      ensures C.IsBestCase(At(e, x).value.choices[ch], C.Now, Following(e, p)(x, ch))
    {
      FollowingAt(e, p, x, ch);
    }
  }

  lemma {:induction false} FollowingAt(e: Entry, p: Path, x: Path, ch: string)
    requires Regular(e) && MayReach(e, p) && AdmitsAll(e, BestAt(e))
    requires At(e, x).Some? && ch in At(e, x).value.choices
    ensures C.IsBestCase(At(e, x).value.choices[ch], C.Now, Following(e, p)(x, ch))
  {
    var n := At(e, x).value;
    if x < p && p[|x|] in n.choices[ch].caseOf {
      MayReachStep(e, p, x);
      RegularAt(e, x);
      assert n.choices != map[];
      assert C.IsBestCase(n.choices[ch], C.Now, Some(n.choices[ch].caseOf[p[|x|]]));
    } else {
      assert Following(e, p)(x, ch) == BestAt(e)(x, ch);
    }
  }

  /** Following p, the walk for updates gets there. */
  lemma {:induction false} FollowingArrives(root: Entry, e: Entry, x: Path, p: Path, bs: Breaks, u: L.LeafEntry)
    requires At(root, x) == Some(e) && x <= p && MayReach(root, p) && bs.update == Following(root, p)
    requires At(root, p).Some? && P.LeafUpdate(At(root, p).value.les, At(root, p).value.nonRevertive) == Some(u)
    ensures EmitsUpdate(e, x, bs, p[|x|..], u)
    decreases |p| - |x|
  {
    var rest := p[|x|..];
    if rest == [] {
      assert x == p;
    } else {
      MayReachStep(root, p, x);
      assert rest[0] == p[|x|] && rest[1..] == p[|x| + 1..];
      AtChild(root, x, rest[0]);
      assert x + [rest[0]] == p[..|x| + 1];
      assert rest[0] in ActiveBy(e, x, bs.update) by {
        FollowingActive(root, e, x, p);
      }
      FollowingArrives(root, e.children[rest[0]], x + [rest[0]], p, bs, u);
    }
  }

  lemma {:induction false} FollowingActive(root: Entry, e: Entry, x: Path, p: Path)
    requires At(root, x) == Some(e) && x < p && p[|x|] in e.children
    ensures p[|x|] in ActiveBy(e, x, Following(root, p))
  {
    forall ch | ch in e.choices ensures p[|x|] !in C.SkipOf(e.choices[ch], Following(root, p)(x, ch)) {
    }
  }

  /** On the way to the tied choice, or there, a delete above p is emitted. */
  lemma {:induction false} TieIsDeleted(root: Entry, e: Entry, x: Path, q: Path, p: Path, pl: Place, aggregate: bool, bs: Breaks, ch: string)
    returns (d: Path)
    requires At(root, x) == Some(e) && x <= q < p && At(root, q).Some? && At(root, q).value.schema.Some? && At(root, p).Some?
    requires ch in At(root, q).value.choices && p[|q|] in C.DeletesOf(At(root, q).value.choices[ch], bs.now(q, ch), bs.before(q, ch))
    ensures EmitsDelete(e, x, pl, aggregate, bs, d) && d <= p[|x|..]
    decreases |q| - |x|
  {
    var rest := p[|x|..];
    if DeletedWholeBy(e, x, pl, aggregate, bs) {
      d := [];
    } else if x == q {
      d := [rest[0]];
      assert ChoiceDeletesBy(e, x, bs, rest[0]);
    } else {
      var k := rest[0];
      ChildOnPath(root, e, x, p);
      assert x + [k] <= q;
      var d' := TieIsDeleted(root, e.children[k], x + [k], q, p, Below(e, pl), aggregate, bs, ch);
      d := [k] + d';
      assert d[1..] == d' && p[|x + [k]|..] == rest[1..];
    }
  }

  lemma {:induction false} ChildOnPath(root: Entry, e: Entry, x: Path, p: Path)
    requires At(root, x) == Some(e) && x < p && At(root, p).Some?
    ensures p[|x|] in e.children && At(root, x + [p[|x|]]) == Some(e.children[p[|x|]])
    decreases x
  {
    if x == [] {
      AtChild(root, x, p[0]);
    } else {
      ChildOnPath(root.children[x[0]], e, x[1..], p[1..]);
      AtChild(root, x, p[|x|]);
    }
  }

  // ---------------------------------------------------------------- exactly

  /** A run in which an intent's update lies at or below a delete. */
  ghost predicate Conflict(e: Entry, aggregate: bool, bs: Breaks, d: Path, p: Path, u: L.LeafEntry) {
    && Fair(e, [], bs) && EmitsDelete(e, [], ROOT, aggregate, bs, d) && EmitsUpdate(e, [], bs, p, u)
    && IsIntent(u.owner) && d <= p
  }

  /** An intent's update that may be reached through a tied case which was best before. */
  ghost predicate TiedUpdate(e: Entry, q: Path, p: Path, u: L.LeafEntry) {
    && MayReach(e, p) && At(e, p).Some? && TieOnTheWay(e, p, q)
    && P.LeafUpdate(At(e, p).value.les, At(e, p).value.nonRevertive) == Some(u) && IsIntent(u.owner)
  }

  lemma {:induction false} EmittedIsReachable(e: Entry, at: Path, bs: Breaks, p: Path, u: L.LeafEntry)
    requires Fair(e, at, bs) && EmitsUpdate(e, at, bs, p, u)
    ensures MayReach(e, p)
    decreases p
  {
    if p != [] {
      if e.schema.Some? {
        forall ch | ch in e.choices && p[0] in e.choices[ch].caseOf
          ensures C.IsBestCase(e.choices[ch], C.Now, Some(e.choices[ch].caseOf[p[0]]))
        {
          assert p[0] !in C.SkipOf(e.choices[ch], bs.update(at, ch));
        }
      }
      EmittedIsReachable(e.children[p[0]], at + [p[0]], bs, p[1..], u);
    }
  }

  lemma {:induction false} TieGivesConflict(e: Entry, aggregate: bool, q: Path, p: Path, u: L.LeafEntry) returns (bs: Breaks, d: Path)
    requires Regular(e) && TiedUpdate(e, q, p, u)
    ensures Conflict(e, aggregate, bs, d, p, u)
  {
    var ch, other :| ch in At(e, q).value.choices && TiedWith(At(e, q).value.choices[ch], p[|q|], other);
    bs, d := TieConflictsAt(e, aggregate, q, p, u, ch, other);
  }

  lemma {:induction false} TieConflictsAt(e: Entry, aggregate: bool, q: Path, p: Path, u: L.LeafEntry, ch: string, other: string)
    returns (bs: Breaks, d: Path)
    requires Regular(e) && TiedUpdate(e, q, p, u)
    requires ch in At(e, q).value.choices && TiedWith(At(e, q).value.choices[ch], p[|q|], other)
    ensures Conflict(e, aggregate, bs, d, p, u)
  {
    var mine := At(e, q).value.choices[ch].caseOf[p[|q|]];
    bs := Unlucky(e, q, ch, mine, other, p);
    assert Fair(e, [], bs) by {
      UnluckyIsFair(e, q, ch, mine, other, p);
    }
    assert EmitsUpdate(e, [], bs, p, u) by {
      UnluckyUpdates(e, q, ch, mine, other, p, u);
    }
    d := UnluckyEmits(e, aggregate, q, ch, other, p);
  }

  lemma {:induction false} UnluckyEmits(e: Entry, aggregate: bool, q: Path, ch: string, other: string, p: Path) returns (d: Path)
    requires Regular(e) && q < p && At(e, q).Some? && At(e, p).Some?
    requires ch in At(e, q).value.choices && TiedWith(At(e, q).value.choices[ch], p[|q|], other)
    ensures EmitsDelete(e, [], ROOT, aggregate, Unlucky(e, q, ch, At(e, q).value.choices[ch].caseOf[p[|q|]], other, p), d) && d <= p
  {
    var r := At(e, q).value.choices[ch];
    RegularAt(e, q);
    UnluckyDeletes(r, p[|q|], other);
    d := TieIsDeleted(e, e, [], q, p, ROOT, aggregate, Unlucky(e, q, ch, r.caseOf[p[|q|]], other, p), ch);
    assert p[0..] == p;
  }

  lemma {:induction false} UnluckyUpdates(e: Entry, q: Path, ch: string, mine: string, other: string, p: Path, u: L.LeafEntry)
    requires MayReach(e, p) && At(e, p).Some? && P.LeafUpdate(At(e, p).value.les, At(e, p).value.nonRevertive) == Some(u)
    ensures EmitsUpdate(e, [], Unlucky(e, q, ch, mine, other, p), p, u)
  {
    FollowingArrives(e, e, [], p, Unlucky(e, q, ch, mine, other, p), u);
    assert p[0..] == p;
  }

  lemma {:induction false} UnluckyDeletes(r: C.Resolver, el: string, other: string)
    requires C.Valid(r) && el in r.caseOf && other != r.caseOf[el]
    ensures el in C.DeletesOf(r, Some(other), Some(r.caseOf[el]))
  {
  }

  lemma {:induction false} UnluckyIsFair(e: Entry, q: Path, ch: string, mine: string, other: string, p: Path)
    requires Regular(e) && MayReach(e, p) && At(e, q).Some? && ch in At(e, q).value.choices
    requires C.OnePass(At(e, q).value.choices[ch], Some(other), Some(mine))
    ensures Fair(e, [], Unlucky(e, q, ch, mine, other, p))
  {
    BestAdmits(e);
    PairAdmits(e, q, ch, mine, other);
    FollowingAdmits(e, p);
    FairEverywhere(e, e, [], Unlucky(e, q, ch, mine, other, p));
  }

  /** Some way of breaking ties puts an intent's update at or below a delete if and only if some
      such update may be reached through a case that was best before and is best now together
      with one that was not. */
  lemma {:induction false} ConflictExactly(e: Entry, aggregate: bool)
    requires Regular(e) && (aggregate ==> KeysHeld(e, ROOT))
    ensures (exists bs, d, p, u :: Conflict(e, aggregate, bs, d, p, u)) <==> exists q, p, u :: TiedUpdate(e, q, p, u)
  {
    if bs, d, p, u :| Conflict(e, aggregate, bs, d, p, u) {
      var q := ConflictIsTie(e, [], ROOT, aggregate, bs, d, p, u);
      EmittedIsReachable(e, [], bs, p, u);
      UpdateAtPlace(e, [], bs, p, u);
      assert TiedUpdate(e, q, p, u);
    }
    if q, p, u :| TiedUpdate(e, q, p, u) {
      var bs, d := TieGivesConflict(e, aggregate, q, p, u);
    }
  }

  // ---------------------------------------------------------------- a tree with a tie

  function Variant(owner: string, priority: int, isNew: bool): L.LeafEntry {
    L.LeafEntry(owner, priority, Value("string", "x"), isNew, false, false, false, false)
  }

  function OldLeaf(): Entry {
    Entry(Some(Field("string")), map[], [Variant("i", 5, false)], map[], {})
  }

  /** A new variant as good as the old leaf's, and an older one that was not. */
  function NewLeaf(): Entry {
    Entry(Some(Field("string")), map[], [Variant("j", 5, true), Variant("k", 9, false)], map[], {})
  }

  function TiedTree(): Entry {
    Entry(Some(Container([], false, map["a" := Field("string"), "b" := Field("string")], map[])),
          map["a" := OldLeaf(), "b" := NewLeaf()], [], map["choice" := C.Tied()], {})
  }

  lemma {:induction false} LeafNumber(e: Entry, m: C.Moment, v: int, i: nat)
    requires e.children == map[] && i < |e.les| && R.Counts(e.les[i], m) && e.les[i].priority == v < MAX_PRIO
    requires forall j | 0 <= j < |e.les| && R.Counts(e.les[j], m) :: v <= e.les[j].priority
    ensures R.Least(R.PrioSet(e, m)) == v
  {
    assert R.Prio(v) in R.LeafPrios(e.les, |e.les|, m);
    assert R.IsLeast(R.PrioSet(e, m), v);
    R.LeastUnique(R.PrioSet(e, m), v);
  }

  lemma OwnerNames()
    ensures IsIntent("i") && IsIntent("j") && IsIntent("k") && "j" != "k"
  {
    assert "j"[0] != "k"[0] && |RUNNING| == 7 && |DEFAULT| == 7;
  }

  lemma {:induction false} TiedLeaves()
    ensures Regular(OldLeaf()) && Regular(NewLeaf())
    ensures P.LeafUpdate(OldLeaf().les, {}) == Some(Variant("i", 5, false))
  {
    OwnerNames();
    var les := OldLeaf().les;
    assert L.IndexOf(les, RUNNING).None?;
    assert les[0].Survives();
    L.CanDeleteMeaning(les);
    assert L.ScanPrefix(les, 1) == L.Scan(Some(0), None);
  }

  lemma {:induction false} TiedMeasures()
    ensures MeasuredHere(TiedTree())
  {
    TiedNumbers();
    assert TiedTree().choices["choice"].caseOf.Keys == {"a", "b"};
  }

  lemma {:induction false} TiedNumbers()
    ensures BranchNumber(TiedTree(), "a", C.Now) == 5 && BranchNumber(TiedTree(), "a", C.Before) == 5
    ensures BranchNumber(TiedTree(), "b", C.Now) == 5 && BranchNumber(TiedTree(), "b", C.Before) == 9
    ensures C.Tied().prio["a"] == C.ElemPrio(5, 5) && C.Tied().prio["b"] == C.ElemPrio(5, 9)
  {
    OwnerNames();
    assert "a"[0] != "b"[0];
    LeafNumber(OldLeaf(), C.Now, 5, 0);
    LeafNumber(OldLeaf(), C.Before, 5, 0);
    LeafNumber(NewLeaf(), C.Now, 5, 0);
    LeafNumber(NewLeaf(), C.Before, 9, 1);
  }

  /** The failing input: a regular tree in which one way of breaking its tie deletes element "a"
      with one call and sends an update for "a" with the next. */
  lemma {:induction false} TiedTreeConflicts()
    ensures Regular(TiedTree())
    ensures exists bs, d :: Conflict(TiedTree(), false, bs, d, ["a"], Variant("i", 5, false))
  {
    var e := TiedTree();
    TiedLeaves();
    TiedMeasures();
    C.TiedIsValid();
    assert Regular(e);
    TiedUpdateThere();
    var bs, d := TieGivesConflict(e, false, [], ["a"], Variant("i", 5, false));
  }

  lemma {:induction false} TiedUpdateThere()
    ensures TiedUpdate(TiedTree(), [], ["a"], Variant("i", 5, false))
  {
    var e := TiedTree();
    TiedLeaves();
    TiedElement();
    OwnerNames();
    assert ["a"][1..] == [] && ["a"][0] == "a" && At(e, ["a"]) == Some(OldLeaf()) && At(e, []) == Some(e);
    assert MayReach(e.children["a"], []);
  }

  lemma {:induction false} TiedElement()
    ensures TiedCase(TiedTree(), "a") && MayVisit(TiedTree(), "a") && TiedTree().children["a"] == OldLeaf()
  {
    TiedResolver();
    assert "a"[0] != "b"[0];
    assert TiedTree().choices["choice"] == C.Tied();
    assert TiedWith(TiedTree().choices["choice"], "a", "B");
  }

  lemma {:induction false} TiedResolver()
    ensures "a" in C.Tied().caseOf && C.Tied().caseOf["a"] == "A" && TiedWith(C.Tied(), "a", "B")
  {
    C.TiedBestCases();
    assert "A"[0] != "B"[0] && "a"[0] != "b"[0];
  }

  // ---------------------------------------------------------------- ties that change nothing

  /** The numbers of a choice are the same now as before. */
  ghost predicate Unchanged(r: C.Resolver) {
    forall el :: C.PrioOf(r, el, C.Now) == C.PrioOf(r, el, C.Before)
  }

  lemma {:induction false} UnchangedMinimum(r: C.Resolver, c: string)
    requires Unchanged(r) && c in r.cases
    ensures C.CaseMin(r, c, C.Now) == C.CaseMin(r, c, C.Before)
  {
    var v := C.CaseMin(r, c, C.Now);
    assert C.IsMinOver(r, r.cases[c], C.Now, v);
    assert C.IsMinOver(r, r.cases[c], C.Before, v);
    C.MinUnique(r, r.cases[c], C.Before, v, C.CaseMin(r, c, C.Before));
  }

  lemma {:induction false} UnchangedNotTied(r: C.Resolver, el: string, other: string)
    requires Unchanged(r)
    ensures !TiedWith(r, el, other)
  {
    forall c | c in r.cases ensures C.CaseMin(r, c, C.Now) == C.CaseMin(r, c, C.Before) {
      UnchangedMinimum(r, c);
    }
  }

  /** A transaction that leaves the numbers of every choice as they were causes no conflict, however
      many cases are tied. */
  lemma {:induction false} UnchangedNoConflict(e: Entry, aggregate: bool, bs: Breaks, d: Path, p: Path, u: L.LeafEntry)
    requires Regular(e) && (aggregate ==> KeysHeld(e, ROOT))
    requires forall q, ch | At(e, q).Some? && ch in At(e, q).value.choices :: Unchanged(At(e, q).value.choices[ch])
    ensures !Conflict(e, aggregate, bs, d, p, u)
  {
    if Conflict(e, aggregate, bs, d, p, u) {
      var q := ConflictIsTie(e, [], ROOT, aggregate, bs, d, p, u);
      var ch, other :| ch in At(e, q).value.choices && TiedWith(At(e, q).value.choices[ch], p[|q|], other);
      UnchangedNotTied(At(e, q).value.choices[ch], p[|q|], other);
    }
  }

  /** Two old leaves of equal priority in two cases. */
  function DoublyTied(): C.Resolver {
    C.Tied().(prio := map["a" := C.ElemPrio(5, 5), "b" := C.ElemPrio(5, 5)])
  }

  function DoublyTiedTree(): Entry {
    TiedTree().(children := map["a" := OldLeaf(), "b" := OldLeaf()], choices := map["choice" := DoublyTied()])
  }

  lemma {:induction false} DoublyTiedValid()
    ensures C.Valid(DoublyTied()) && DoublyTied().caseOf.Keys == {"a", "b"}
    ensures C.PrioOf(DoublyTied(), "a", C.Now) == 5 && C.PrioOf(DoublyTied(), "a", C.Before) == 5
    ensures C.PrioOf(DoublyTied(), "b", C.Now) == 5 && C.PrioOf(DoublyTied(), "b", C.Before) == 5
  {
    assert "A"[0] != "B"[0] && "a"[0] != "b"[0];
  }

  lemma {:induction false} DoublyTiedMeasured()
    ensures MeasuredHere(DoublyTiedTree())
  {
    var e := DoublyTiedTree();
    OwnerNames();
    assert "a"[0] != "b"[0];
    LeafNumber(OldLeaf(), C.Now, 5, 0);
    LeafNumber(OldLeaf(), C.Before, 5, 0);
    DoublyTiedValid();
    assert BranchNumber(e, "a", C.Now) == 5 && BranchNumber(e, "a", C.Before) == 5;
    assert BranchNumber(e, "b", C.Now) == 5 && BranchNumber(e, "b", C.Before) == 5;
  }

  lemma {:induction false} DoublyTiedRegular()
    ensures Regular(DoublyTiedTree())
  {
    TiedLeaves();
    DoublyTiedValid();
    DoublyTiedMeasured();
    assert forall k | k in DoublyTiedTree().children :: DoublyTiedTree().children[k] == OldLeaf();
  }

  /** Both cases are best now and before, and yet nothing is deleted. */
  lemma {:induction false} DoublyTiedIsQuiet(bs: Breaks, d: Path, p: Path, u: L.LeafEntry)
    ensures Regular(DoublyTiedTree()) && !Conflict(DoublyTiedTree(), false, bs, d, p, u)
  {
    var e := DoublyTiedTree();
    DoublyTiedRegular();
    forall q, ch | At(e, q).Some? && ch in At(e, q).value.choices ensures Unchanged(At(e, q).value.choices[ch]) {
      DoublyTiedUnchanged(q, ch);
    }
    UnchangedNoConflict(e, false, bs, d, p, u);
  }

  lemma {:induction false} DoublyTiedUnchanged(q: Path, ch: string)
    requires At(DoublyTiedTree(), q).Some? && ch in At(DoublyTiedTree(), q).value.choices
    ensures Unchanged(At(DoublyTiedTree(), q).value.choices[ch])
  {
    assert forall r: Path | r != [] :: At(OldLeaf(), r).None?;
    assert q != [] ==> q[0] in DoublyTiedTree().children && At(DoublyTiedTree(), q) == At(OldLeaf(), q[1..]);
    assert "a"[0] != "b"[0];
  }

  // ---------------------------------------------------------------- finished trees are measured

  /** Below an element of a choice there is no further choice. */
  ghost predicate NotNested(e: Entry) {
    && (e.choices != map[] ==> e.schema.Some?)
    && (forall ch, el | ch in e.choices && el in e.choices[ch].caseOf && el in e.children :: ChoiceFree(e.children[el]))
    && forall k | k in e.children :: NotNested(e.children[k])
  }

  ghost predicate MeasuredAll(e: Entry) {
    MeasuredHere(e) && forall k | k in e.children :: MeasuredAll(e.children[k])
  }

  lemma {:induction false} SameNumbers(e: Entry, f: Entry, m: C.Moment)
    requires f.les == e.les && f.children.Keys == e.children.Keys
    requires forall k | k in e.children :: R.PrioSet(f.children[k], m) == R.PrioSet(e.children[k], m)
    ensures R.PrioSet(f, m) == R.PrioSet(e, m)
  {
    R.PrioSetSplit(e, m);
    R.PrioSetSplit(f, m);
    assert R.ChildPrios(e, e.children.Keys, m) == R.ChildPrios(f, f.children.Keys, m);
  }

  lemma {:induction false} FinishedSameNumbers(e: Entry, f: Entry, m: C.Moment)
    requires R.MayFinish(e, f)
    ensures R.PrioSet(f, m) == R.PrioSet(e, m)
    decreases e
  {
    var act := Lookups.ActiveWith(R.Populate(e), R.FinishPick(e, f));
    forall k | k in e.children ensures R.PrioSet(f.children[k], m) == R.PrioSet(e.children[k], m) {
      if k in act {
        FinishedSameNumbers(e.children[k], f.children[k], m);
      }
    }
    SameNumbers(e, f, m);
  }

  lemma {:induction false} ChoiceFreeMeasured(e: Entry)
    requires ChoiceFree(e)
    ensures MeasuredAll(e)
  {
    forall k | k in e.children ensures MeasuredAll(e.children[k]) {
      ChoiceFreeMeasured(e.children[k]);
    }
  }

  /** After the insertion phase the numbers are those of the branches, unless choices are nested:
      below a case that the phase did not enter they are not measured. */
  lemma {:induction false} FinishedIsMeasured(e: Entry, f: Entry)
    requires NotNested(e) && R.MayFinish(e, f)
    ensures MeasuredAll(f)
    decreases e
  {
    FinishedMeasuresHere(e, f);
    var pick := R.FinishPick(e, f);
    forall k | k in f.children ensures MeasuredAll(f.children[k]) {
      if k in Lookups.ActiveWith(R.Populate(e), pick) {
        FinishedIsMeasured(e.children[k], f.children[k]);
      } else {
        var ch :| ch in R.Populate(e).choices && k in C.SkipOf(R.Populate(e).choices[ch], pick[ch]);
        assert k in e.choices[ch].caseOf;
        ChoiceFreeMeasured(e.children[k]);
      }
    }
  }

  ghost predicate MeasuredElement(e: Entry, ch: string, el: string)
    requires ch in e.choices
  {
    && C.PrioOf(e.choices[ch], el, C.Now) == BranchNumber(e, el, C.Now)
    && C.PrioOf(e.choices[ch], el, C.Before) == BranchNumber(e, el, C.Before)
  }

  lemma {:induction false} FinishedMeasuresHere(e: Entry, f: Entry)
    requires R.MayFinish(e, f) && (e.choices != map[] ==> e.schema.Some?)
    ensures MeasuredHere(f)
  {
    FinishedSameElements(e, f);
    forall ch, el | ch in f.choices && el in f.choices[ch].caseOf ensures MeasuredElement(f, ch, el) {
      FinishedMeasuresElement(e, f, ch, el, C.Now);
      FinishedMeasuresElement(e, f, ch, el, C.Before);
    }
    MeasuredFromElements(f);
  }

  lemma {:induction false} MeasuredFromElements(e: Entry)
    requires forall ch, el | ch in e.choices && el in e.choices[ch].caseOf :: MeasuredElement(e, ch, el)
    ensures MeasuredHere(e)
  {
  }

  lemma {:induction false} FinishedSameElements(e: Entry, f: Entry)
    requires R.MayFinish(e, f)
    ensures f.choices.Keys == e.choices.Keys && forall ch | ch in e.choices :: f.choices[ch].caseOf == e.choices[ch].caseOf
  {
  }

  lemma {:induction false} FinishedMeasuresElement(e: Entry, f: Entry, ch: string, el: string, m: C.Moment)
    requires R.MayFinish(e, f) && e.schema.Some? && ch in e.choices && el in e.choices[ch].caseOf
    ensures ch in f.choices && C.PrioOf(f.choices[ch], el, m) == BranchNumber(f, el, m)
  {
    var r := R.PopulatedResolver(e, e.choices[ch]);
    assert f.choices[ch] == r && r.prio[el] == R.Measured(e, el);
    if el in e.children && el in Lookups.ActiveWith(R.Populate(e), R.FinishPick(e, f)) {
      FinishedSameNumbers(e.children[el], f.children[el], m);
    }
  }
}
