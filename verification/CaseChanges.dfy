/** A choice that changes its best case (pkg/tree/sharedEntryAttributes.go,
    pkg/tree/api/choice_case_resolver.go), told by the flags of the variants below its elements: what
    is deleted, and what the device holds of the choice afterwards. */
module CaseChanges {
  import opened Base
  import opened Tree
  import opened Southbound
  import opened Ties
  import Lookups
  import W = Walks
  import R = Resolution
  import C = Choices
  import L = Leaves

  // ---------------------------------------------------------------- what counts, by the flags

  /** A variant of priority v that is not a default, at q: one that will be there, or was there. */
  ghost predicate HeldAt(e: Entry, q: Path, i: nat, m: C.Moment, v: int) {
    && At(e, q).Some? && i < |At(e, q).value.les|
    && var l := At(e, q).value.les[i];
       l.owner != DEFAULT && l.priority == v && (match m case Now => !l.delete case Before => !l.isNew)
  }

  ghost predicate Held(e: Entry, m: C.Moment, v: int) {
    exists q, i: nat :: HeldAt(e, q, i, m, v)
  }

  lemma {:induction false} HeldHere(e: Entry, m: C.Moment, v: int)
    ensures R.Prio(v) in R.LeafPrios(e.les, |e.les|, m) <==> exists i: nat :: HeldAt(e, [], i, m, v)
  {
    if i: nat :| HeldAt(e, [], i, m, v) {
      assert R.Counts(e.les[i], m);
    }
    if R.Prio(v) in R.LeafPrios(e.les, |e.les|, m) {
      var i :| 0 <= i < |e.les| && R.Counts(e.les[i], m) && R.Prio(e.les[i].priority) == R.Prio(v);
      assert HeldAt(e, [], i, m, v);
    }
  }

  lemma {:induction false} HeldBelow(e: Entry, k: string, q: Path, i: nat, m: C.Moment, v: int)
    requires k in e.children
    ensures HeldAt(e, [k] + q, i, m, v) <==> HeldAt(e.children[k], q, i, m, v)
  {
    assert ([k] + q)[1..] == q;
  }

  /** The priorities a branch is measured by are exactly those. */
  lemma {:induction false} MeasuredByFlags(e: Entry, m: C.Moment, v: int)
    ensures R.Prio(v) in R.PrioSet(e, m) <==> Held(e, m, v)
    decreases e
  {
    HeldHere(e, m, v);
    forall k | k in e.children ensures R.Prio(v) in R.PrioSet(e.children[k], m) <==> Held(e.children[k], m, v) {
      MeasuredByFlags(e.children[k], m, v);
    }
    if R.Prio(v) in R.PrioSet(e, m) && R.Prio(v) !in R.LeafPrios(e.les, |e.les|, m) {
      var k :| k in e.children && R.Prio(v) in R.PrioSet(e.children[k], m);
      var q, i: nat :| HeldAt(e.children[k], q, i, m, v);
      HeldBelow(e, k, q, i, m, v);
    }
    if q, i: nat :| HeldAt(e, q, i, m, v) {
      if q != [] {
        assert q == [q[0]] + q[1..];
        HeldBelow(e, q[0], q[1..], i, m, v);
        assert Held(e.children[q[0]], m, v);
      }
    }
  }

  // ---------------------------------------------------------------- the best case, by the flags

  /** Something of priority v is held below an element of the case, and everything held below
      elements of other cases ranks behind it. */
  ghost predicate Leads(e: Entry, r: C.Resolver, case_: string, m: C.Moment, v: int) {
    && v < MAX_PRIO
    && (exists el :: el in r.caseOf && r.caseOf[el] == case_ && el in e.children && Held(e.children[el], m, v))
    && (forall el, x | el in r.caseOf && r.caseOf[el] != case_ && el in e.children && Held(e.children[el], m, x) :: v < x)
  }

  lemma {:induction false} ElementNumber(e: Entry, ch: string, el: string, m: C.Moment)
    requires MeasuredHere(e) && ch in e.choices && el in e.choices[ch].caseOf
    ensures var n := C.PrioOf(e.choices[ch], el, m);
            && n <= MAX_PRIO
            && (n < MAX_PRIO ==> el in e.children && Held(e.children[el], m, n))
            && (forall x | el in e.children && Held(e.children[el], m, x) :: n <= x)
  {
    var n := C.PrioOf(e.choices[ch], el, m);
    assert n == BranchNumber(e, el, m);
    if el in e.children {
      var s := R.PrioSet(e.children[el], m);
      assert R.IsLeast(s, n);
      MeasuredByFlags(e.children[el], m, n);
      forall x | Held(e.children[el], m, x) ensures n <= x {
        MeasuredByFlags(e.children[el], m, x);
        assert R.Prio(x) in s;
      }
    }
  }

  lemma {:induction false} LeadingNumber(e: Entry, ch: string, case_: string, m: C.Moment, v: int)
    requires MeasuredHere(e) && ch in e.choices && C.Valid(e.choices[ch]) && Leads(e, e.choices[ch], case_, m, v)
    ensures case_ in e.choices[ch].cases && C.CaseMin(e.choices[ch], case_, m) <= v
  {
    var r := e.choices[ch];
    var el :| el in r.caseOf && r.caseOf[el] == case_ && el in e.children && Held(e.children[el], m, v);
    ElementNumber(e, ch, el, m);
    assert el in r.cases[case_] && C.IsMinOver(r, r.cases[case_], m, C.CaseMin(r, case_, m));
  }

  lemma {:induction false} TrailingNumber(e: Entry, ch: string, case_: string, m: C.Moment, v: int, other: string)
    requires MeasuredHere(e) && ch in e.choices && C.Valid(e.choices[ch]) && Leads(e, e.choices[ch], case_, m, v)
    requires other in e.choices[ch].cases && other != case_
    ensures v < C.CaseMin(e.choices[ch], other, m)
  {
    var r := e.choices[ch];
    var w := C.CaseMin(r, other, m);
    assert C.IsMinOver(r, r.cases[other], m, w);
    if w < MAX_PRIO {
      var el :| el in r.cases[other] && C.PrioOf(r, el, m) == w;
      ElementNumber(e, ch, el, m);
      assert Held(e.children[el], m, w);
    }
  }

  /** Every look-up finds the case that leads. */
  lemma {:induction false} LeaderIsBest(e: Entry, ch: string, case_: string, m: C.Moment, v: int, best: Option<string>)
    requires MeasuredHere(e) && ch in e.choices && C.Valid(e.choices[ch]) && Leads(e, e.choices[ch], case_, m, v)
    requires C.IsBestCase(e.choices[ch], m, best)
    ensures best == Some(case_)
  {
    LeadingNumber(e, ch, case_, m, v);
    if best.Some? && best.value != case_ {
      TrailingNumber(e, ch, case_, m, v, best.value);
    }
  }

  // ---------------------------------------------------------------- the deletes of a changed choice

  /** The choice at q was led by one case and is led by another. */
  ghost predicate Changes(root: Entry, q: Path, ch: string, was: string, now: string) {
    && Untied(root, q, ch, was, now) && was != now
  }

  /** One case leads before, and one now. */
  ghost predicate Untied(root: Entry, q: Path, ch: string, was: string, now: string) {
    && At(root, q).Some? && At(root, q).value.schema.Some? && ch in At(root, q).value.choices
    && var e := At(root, q).value;
       && C.Valid(e.choices[ch]) && MeasuredHere(e)
       && (exists v :: Leads(e, e.choices[ch], was, C.Before, v)) && (exists v :: Leads(e, e.choices[ch], now, C.Now, v))
  }

  lemma {:induction false} FairAt(e: Entry, at: Path, bs: Breaks, p: Path)
    requires Fair(e, at, bs) && At(e, p).Some?
    ensures Fair(At(e, p).value, at + p, bs)
    decreases p
  {
    if p == [] {
      assert at + p == at;
    } else {
      assert at + p == at + [p[0]] + p[1..];
      FairAt(e.children[p[0]], at + [p[0]], bs, p[1..]);
    }
  }

  /** Every call finds these cases. */
  lemma {:induction false} UntiedFinds(root: Entry, bs: Breaks, q: Path, ch: string, was: string, now: string)
    requires Fair(root, [], bs) && Untied(root, q, ch, was, now)
    ensures bs.now(q, ch) == Some(now) && bs.before(q, ch) == Some(was) && bs.update(q, ch) == Some(now)
  {
    var e := At(root, q).value;
    FairAt(root, [], bs, q);
    assert [] + q == q;
    FairFinds(e, bs, q, ch, was, now);
  }

  lemma {:induction false} FairFinds(e: Entry, bs: Breaks, q: Path, ch: string, was: string, now: string)
    requires FairHere(e, q, bs) && MeasuredHere(e) && ch in e.choices && C.Valid(e.choices[ch])
    requires (exists v :: Leads(e, e.choices[ch], was, C.Before, v)) && (exists v :: Leads(e, e.choices[ch], now, C.Now, v))
    ensures bs.now(q, ch) == Some(now) && bs.before(q, ch) == Some(was) && bs.update(q, ch) == Some(now)
  {
    var v :| Leads(e, e.choices[ch], was, C.Before, v);
    var w :| Leads(e, e.choices[ch], now, C.Now, w);
    assert C.OnePass(e.choices[ch], bs.now(q, ch), bs.before(q, ch));
    assert C.IsBestCase(e.choices[ch], C.Now, bs.update(q, ch));
    LeaderIsBest(e, ch, was, C.Before, v, bs.before(q, ch));
    LeaderIsBest(e, ch, now, C.Now, w, bs.now(q, ch));
    LeaderIsBest(e, ch, now, C.Now, w, bs.update(q, ch));
  }

  ghost predicate CoveredBy(root: Entry, aggregate: bool, bs: Breaks, x: Path) {
    exists d: Path :: d <= x && EmitsDelete(root, [], ROOT, aggregate, bs, d)
  }

  /** Completeness of choice deletes: every element of the case that lost the lead is covered. */
  lemma {:induction false} ChangedCaseIsDeleted(root: Entry, aggregate: bool, bs: Breaks, q: Path, ch: string, was: string, now: string, el: string)
    requires Fair(root, [], bs) && Changes(root, q, ch, was, now)
    requires el in At(root, q).value.choices[ch].cases[was] && el in At(root, q).value.children
    ensures CoveredBy(root, aggregate, bs, q + [el])
  {
    var e := At(root, q).value;
    UntiedFinds(root, bs, q, ch, was, now);
    AtChild(root, q, el);
    assert el in C.DeletesOf(e.choices[ch], Some(now), Some(was));
    assert (q + [el])[|q|] == el && q < q + [el];
    var d := TieIsDeleted(root, root, [], q, q + [el], ROOT, aggregate, bs, ch);
    assert (q + [el])[0..] == q + [el];
  }

  // ---------------------------------------------------------------- the device afterwards

  /** What the walks emit, as a set of paths and a map of values. */
  ghost predicate Sends(root: Entry, aggregate: bool, bs: Breaks, dels: set<Path>, upds: map<Path, Value>) {
    && (forall d :: d in dels <==> EmitsDelete(root, [], ROOT, aggregate, bs, d))
    && (forall x :: x in upds <==> exists u :: EmitsUpdate(root, [], bs, x, u))
  }

  /** x lies at or below an element of the choice at q, of a case other than the one given. */
  ghost predicate OutsideCase(root: Entry, q: Path, ch: string, case_: string, x: Path)
    requires At(root, q).Some? && ch in At(root, q).value.choices
  {
    && q < x && x[|q|] in At(root, q).value.choices[ch].caseOf
    && At(root, q).value.choices[ch].caseOf[x[|q|]] != case_
  }

  /** Below the choice the device holds elements of the given case only. */
  ghost predicate OnlyCase(root: Entry, q: Path, ch: string, case_: string, device: map<Path, Value>)
    requires At(root, q).Some? && ch in At(root, q).value.choices
  {
    forall x | OutsideCase(root, q, ch, case_, x) :: x !in device
  }

  /** The walk for updates does not leave the way through the best case. */
  lemma {:induction false} UpdateStaysInCase(root: Entry, e: Entry, at: Path, q: Path, bs: Breaks, x: Path, u: L.LeafEntry)
    requires At(root, at) == Some(e) && at <= q && q < x && At(root, q).Some? && EmitsUpdate(e, at, bs, x[|at|..], u)
    ensures x[|q|] in ActiveBy(At(root, q).value, q, bs.update)
    decreases |q| - |at|
  {
    var rest := x[|at|..];
    assert rest[0] == x[|at|];
    if at != q {
      var k := rest[0];
      AtChild(root, at, k);
      assert at + [k] <= q && x[|at + [k]|..] == rest[1..];
      UpdateStaysInCase(root, e.children[k], at + [k], q, bs, x, u);
    }
  }

  lemma {:induction false} NoUpdateOutside(root: Entry, bs: Breaks, q: Path, ch: string, was: string, now: string, x: Path, u: L.LeafEntry)
    requires Fair(root, [], bs) && Untied(root, q, ch, was, now) && OutsideCase(root, q, ch, now, x)
    ensures !EmitsUpdate(root, [], bs, x, u)
  {
    UntiedFinds(root, bs, q, ch, was, now);
    assert x[|q|] in C.SkipOf(At(root, q).value.choices[ch], bs.update(q, ch));
    if EmitsUpdate(root, [], bs, x, u) {
      assert x[0..] == x;
      UpdateStaysInCase(root, root, [], q, bs, x, u);
    }
  }

  /** Outside the leading case the device is left with what it had, unless a delete covers it. */
  lemma {:induction false} LeftOutside(root: Entry, aggregate: bool, bs: Breaks, dels: set<Path>, upds: map<Path, Value>,
                                       q: Path, ch: string, was: string, now: string, x: Path)
    requires Fair(root, [], bs) && Untied(root, q, ch, was, now) && Sends(root, aggregate, bs, dels, upds) && OutsideCase(root, q, ch, now, x)
    ensures x in Apply(Running(root), dels, upds) <==> RunningAt(root, x).Some? && !CoveredBy(root, aggregate, bs, x)
  {
    forall u ensures !EmitsUpdate(root, [], bs, x, u) {
      NoUpdateOutside(root, bs, q, ch, was, now, x, u);
    }
    RunningMapAt(root, x);
    ApplyAt(Running(root), dels, upds, x);
    assert Covered(dels, x) <==> CoveredBy(root, aggregate, bs, x);
  }

  /** If the device held elements of the leading case only, it does so afterwards, whether the lead
      changed or not: never of two cases. */
  lemma {:induction false} OneCaseOnDevice(root: Entry, aggregate: bool, bs: Breaks, dels: set<Path>, upds: map<Path, Value>,
                                           q: Path, ch: string, was: string, now: string)
    requires Fair(root, [], bs) && Untied(root, q, ch, was, now) && Sends(root, aggregate, bs, dels, upds)
    requires OnlyCase(root, q, ch, was, Running(root))
    ensures OnlyCase(root, q, ch, now, Apply(Running(root), dels, upds))
  {
    forall x | OutsideCase(root, q, ch, now, x) ensures x !in Apply(Running(root), dels, upds) {
      LeftOutside(root, aggregate, bs, dels, upds, q, ch, was, now, x);
      RunningMapAt(root, x);
      if RunningAt(root, x).Some? {
        assert !OutsideCase(root, q, ch, was, x);
        LostIsCovered(root, aggregate, bs, q, ch, was, now, x);
      }
    }
  }

  lemma {:induction false} LostIsCovered(root: Entry, aggregate: bool, bs: Breaks, q: Path, ch: string, was: string, now: string, x: Path)
    requires Fair(root, [], bs) && Untied(root, q, ch, was, now) && was != now && q < x && At(root, x).Some?
    requires x[|q|] in At(root, q).value.choices[ch].caseOf && At(root, q).value.choices[ch].caseOf[x[|q|]] == was
    ensures CoveredBy(root, aggregate, bs, x)
  {
    var el := x[|q|];
    ChildOnPath(root, At(root, q).value, q, x);
    ChangedCaseIsDeleted(root, aggregate, bs, q, ch, was, now, el);
    var d: Path :| d <= q + [el] && EmitsDelete(root, [], ROOT, aggregate, bs, d);
    assert q + [el] <= x;
    assert d <= x;
  }

  // ---------------------------------------------------------------- strays: what drifted into another case

  /** The device holds something outside the leading case, and not in a case that lost the lead. */
  ghost predicate Stray(root: Entry, q: Path, ch: string, was: string, now: string, x: Path)
    requires At(root, q).Some? && ch in At(root, q).value.choices
  {
    && OutsideCase(root, q, ch, now, x) && RunningAt(root, x).Some?
    && (was != now ==> At(root, q).value.choices[ch].caseOf[x[|q|]] != was)
  }

  /** An entry whose choices do not nest or overlap. */
  ghost predicate PlainChoices(e: Entry) {
    && (forall ch | ch in e.choices :: C.Valid(e.choices[ch])) && OneChoiceEach(e)
    && forall ch, el | ch in e.choices && el in e.choices[ch].caseOf && el in e.children :: ChoiceFree(e.children[el])
  }

  lemma {:induction false} LeafDeleteCovered(e: Entry, at: Path, pl: Place, bs: Breaks, x: Path) returns (d: Path)
    requires ListsHoldNoValue(e) && At(e, x).Some? && L.ShouldDelete(At(e, x).value.les) && (pl.root ==> x != [])
    ensures d <= x && EmitsDelete(e, at, pl, false, bs, d)
    decreases x
  {
    if DeletedWholeBy(e, at, pl, false, bs) {
      d := [];
    } else {
      var d' := LeafDeleteCovered(e.children[x[0]], at + [x[0]], Below(e, pl), bs, x[1..]);
      d := [x[0]] + d';
      assert d[1..] == d';
    }
  }

  /** A path emitted below q is emitted by the walk from there. */
  lemma {:induction false} EmittedFrom(root: Entry, e: Entry, at: Path, pl: Place, aggregate: bool, bs: Breaks, q: Path, d: Path) returns (here: Place)
    requires At(root, at) == Some(e) && at <= q && q < d && At(root, q).Some? && EmitsDelete(e, at, pl, aggregate, bs, d[|at|..])
    ensures EmitsDelete(At(root, q).value, q, here, aggregate, bs, d[|q|..])
    decreases |q| - |at|
  {
    if at == q {
      here := pl;
    } else {
      var rest := d[|at|..];
      var k := rest[0];
      ChildOnPath(root, e, at, q);
      AtChild(root, at, k);
      assert at + [k] <= q && d[|at + [k]|..] == rest[1..];
      here := EmittedFrom(root, e.children[k], at + [k], Below(e, pl), aggregate, bs, q, d);
    }
  }

  lemma {:induction false} NoTiesWithoutChoices(e: Entry)
    requires ChoiceFree(e)
    ensures Lookups.NoTies(e)
  {
    forall k | k in Active(e) ensures Lookups.NoTies(e.children[k]) {
      NoTiesWithoutChoices(e.children[k]);
    }
  }

  lemma {:induction false} OkAt(root: Entry, p: Path)
    requires LeavesOk(root) && NoPresenceConflict(root) && At(root, p).Some?
    ensures LeavesOk(At(root, p).value) && NoPresenceConflict(At(root, p).value)
  {
    LeavesOkAt(root, p);
    NoConflictAt(root, p);
  }

  /** A delete inside a branch without choices reaches only leaves that should go. */
  lemma {:induction false} InsideShouldGo(e: Entry, at: Path, pl: Place, bs: Breaks, d: Path, x: Path)
    requires ChoiceFree(e) && LeavesOk(e) && NoPresenceConflict(e) && Fair(e, at, bs) && At(e, x).Some?
    requires d <= x && EmitsDelete(e, at, pl, false, bs, d) && L.HasRunning(At(e, x).value.les)
    ensures L.ShouldDelete(At(e, x).value.les)
  {
    NoTiesWithoutChoices(e);
    ChoiceFreeActive(e, x);
    W.ActiveAbove(e, d, x);
    W.EmitsOneWay(e, at, pl, false, bs, d);
    assert Covered(Deletes(e, pl, false), x);
    CoveredCanDelete(e, pl, x);
    LeavesOkAt(e, x);
    L.CanDeleteMeaning(At(e, x).value.les);
  }

  lemma {:induction false} StrayNotOfChoice(e: Entry, q: Path, bs: Breaks, ch: string, was: string, now: string, el: string)
    requires PlainChoices(e) && ch in e.choices && el in e.choices[ch].caseOf && bs.now(q, ch) == Some(now) && bs.before(q, ch) == Some(was)
    requires was != now ==> e.choices[ch].caseOf[el] != was
    ensures !ChoiceDeletesBy(e, q, bs, el)
  {
  }

  /** A stray is deleted exactly if the choice itself is, or its own leaf should go. */
  lemma {:induction false} StrayCovered(root: Entry, bs: Breaks, q: Path, ch: string, was: string, now: string, x: Path)
    requires LeavesOk(root) && NoPresenceConflict(root) && ListsHoldNoValue(root) && Fair(root, [], bs)
    requires Untied(root, q, ch, was, now) && PlainChoices(At(root, q).value) && Stray(root, q, ch, was, now, x)
    ensures CoveredBy(root, false, bs, x) <==> CoveredBy(root, false, bs, q) || L.ShouldDelete(At(root, x).value.les)
  {
    if d: Path :| d <= q && EmitsDelete(root, [], ROOT, false, bs, d) {
      assert d <= x;
    }
    if L.ShouldDelete(At(root, x).value.les) {
      var d := LeafDeleteCovered(root, [], ROOT, bs, x);
    }
    if d: Path :| d <= x && EmitsDelete(root, [], ROOT, false, bs, d) {
      if d <= q {
        assert CoveredBy(root, false, bs, q);
      } else {
        assert q < d;
        StrayGoesItself(root, bs, q, ch, was, now, x, d);
      }
    }
  }

  lemma {:induction false} StrayGoesItself(root: Entry, bs: Breaks, q: Path, ch: string, was: string, now: string, x: Path, d: Path)
    requires LeavesOk(root) && NoPresenceConflict(root) && Fair(root, [], bs)
    requires Untied(root, q, ch, was, now) && PlainChoices(At(root, q).value) && Stray(root, q, ch, was, now, x)
    requires q < d && d <= x && EmitsDelete(root, [], ROOT, false, bs, d)
    ensures L.ShouldDelete(At(root, x).value.les)
  {
    assert !ChoiceDeletesBy(At(root, q).value, q, bs, x[|q|]) by {
      UntiedFinds(root, bs, q, ch, was, now);
      StrayNotOfChoice(At(root, q).value, q, bs, ch, was, now, x[|q|]);
    }
    StrayInside(root, bs, q, At(root, q).value, x, d);
  }

  lemma {:induction false} EmittedInside(e: Entry, at: Path, pl: Place, bs: Breaks, d: Path)
    requires d != [] && EmitsDelete(e, at, pl, false, bs, d) && !ChoiceDeletesBy(e, at, bs, d[0])
    ensures d[0] in e.children && EmitsDelete(e.children[d[0]], at + [d[0]], Below(e, pl), false, bs, d[1..])
  {
  }

  lemma {:induction false} Tails(q: Path, d: Path, x: Path)
    requires q < d && d <= x
    ensures d[|q|..] != [] && d[|q|..][0] == x[|q|] && d[|q|..][1..] <= x[|q| + 1..] && q + [x[|q|]] + x[|q| + 1..] == x
  {
  }

  lemma {:induction false} StrayInside(root: Entry, bs: Breaks, q: Path, e: Entry, x: Path, d: Path)
    requires LeavesOk(root) && NoPresenceConflict(root) && Fair(root, [], bs) && At(root, q) == Some(e)
    requires q < d && d <= x && EmitsDelete(root, [], ROOT, false, bs, d) && RunningAt(root, x).Some?
    requires (x[|q|] in e.children ==> ChoiceFree(e.children[x[|q|]])) && !ChoiceDeletesBy(e, q, bs, x[|q|])
    ensures L.ShouldDelete(At(root, x).value.les)
  {
    assert d[0..] == d;
    var pl := EmittedFrom(root, root, [], ROOT, false, bs, q, d);
    Tails(q, d, x);
    EmittedInside(e, q, pl, bs, d[|q|..]);
    ElementShouldGo(root, bs, q, e, x[|q|], Below(e, pl), d[|q|..][1..], x[|q| + 1..]);
  }

  lemma {:induction false} ElementShouldGo(root: Entry, bs: Breaks, q: Path, e: Entry, el: string, pl: Place, d: Path, x: Path)
    requires LeavesOk(root) && NoPresenceConflict(root) && Fair(root, [], bs) && At(root, q) == Some(e)
    requires el in e.children && ChoiceFree(e.children[el]) && d <= x && EmitsDelete(e.children[el], q + [el], pl, false, bs, d)
    requires RunningAt(root, q + [el] + x).Some?
    ensures L.ShouldDelete(At(root, q + [el] + x).value.les)
  {
    AtChild(root, q, el);
    AtConcat(root, q + [el], x);
    OkAt(root, q + [el]);
    FairAt(root, [], bs, q + [el]);
    assert [] + (q + [el]) == q + [el];
    InsideShouldGo(e.children[el], q + [el], pl, bs, d, x);
  }

  /** Exactly when the device ends with elements of the leading case only: the choice itself is
      deleted, or every stray leaf should go. */
  lemma {:induction false} OneCaseExactly(root: Entry, bs: Breaks, dels: set<Path>, upds: map<Path, Value>, q: Path, ch: string, was: string, now: string)
    requires LeavesOk(root) && NoPresenceConflict(root) && ListsHoldNoValue(root) && Fair(root, [], bs)
    requires Untied(root, q, ch, was, now) && PlainChoices(At(root, q).value) && Sends(root, false, bs, dels, upds)
    ensures OnlyCase(root, q, ch, now, Apply(Running(root), dels, upds)) <==>
            CoveredBy(root, false, bs, q) || forall x | Stray(root, q, ch, was, now, x) :: L.ShouldDelete(At(root, x).value.les)
  {
    forall x | OutsideCase(root, q, ch, now, x)
      ensures x in Apply(Running(root), dels, upds) <==>
              Stray(root, q, ch, was, now, x) && !CoveredBy(root, false, bs, q) && !L.ShouldDelete(At(root, x).value.les)
    {
      LeftOutside(root, false, bs, dels, upds, q, ch, was, now, x);
      if RunningAt(root, x).Some? {
        if Stray(root, q, ch, was, now, x) {
          StrayCovered(root, bs, q, ch, was, now, x);
        } else {
          LostIsCovered(root, false, bs, q, ch, was, now, x);
        }
      }
    }
  }

  // ---------------------------------------------------------------- a stray that stays

  function Drifted(): Entry {
    Entry(Some(Field("string")), map[], [L.LeafEntry(RUNNING, RUNNING_PRIO, Value("string", "x"), false, false, false, false, false)], map[], {})
  }

  function TwoCases(): C.Resolver {
    C.Resolver(map["A" := {"a"}, "B" := {"b"}], map["a" := "A", "b" := "B"],
               map["a" := C.ElemPrio(RUNNING_PRIO, RUNNING_PRIO), "b" := C.ElemPrio(5, 5)])
  }

  /** An intent holds case B; on the device there is something of case A. */
  function DriftedTree(): Entry {
    Entry(Some(Container([], false, map["a" := Field("string"), "b" := Field("string")], map[])),
          map["a" := Drifted(), "b" := OldLeaf()], [], map["choice" := TwoCases()], {})
  }

  lemma {:induction false} DriftedLeaves()
    ensures L.WellFormed(Drifted().les) && L.WellFormed(OldLeaf().les) && !L.ShouldDelete(Drifted().les) && L.HasRunning(Drifted().les)
    ensures !L.ShouldDelete(OldLeaf().les)
  {
    OwnerNames();
    var les := Drifted().les;
    assert les[0].owner == RUNNING && L.IndexOf(les, RUNNING) == Some(0);
    assert L.Highest(les) in les;
    assert L.IndexOf(OldLeaf().les, RUNNING).None?;
  }

  lemma {:induction false} TwoCasesValid()
    ensures C.Valid(TwoCases()) && TwoCases().caseOf.Keys == {"a", "b"}
    ensures C.PrioOf(TwoCases(), "a", C.Now) == RUNNING_PRIO && C.PrioOf(TwoCases(), "a", C.Before) == RUNNING_PRIO
    ensures C.PrioOf(TwoCases(), "b", C.Now) == 5 && C.PrioOf(TwoCases(), "b", C.Before) == 5
  {
    assert "a"[0] != "b"[0] && "A"[0] != "B"[0];
  }

  lemma {:induction false} DriftedNumbers(m: C.Moment)
    ensures BranchNumber(DriftedTree(), "a", m) == RUNNING_PRIO && BranchNumber(DriftedTree(), "b", m) == 5
  {
    OwnerNames();
    assert "a"[0] != "b"[0];
    LeafNumber(OldLeaf(), m, 5, 0);
    LeafNumber(Drifted(), m, RUNNING_PRIO, 0);
    assert DriftedTree().children["a"] == Drifted() && DriftedTree().children["b"] == OldLeaf();
  }

  lemma {:induction false} DriftedMeasured()
    ensures C.Valid(TwoCases()) && MeasuredHere(DriftedTree())
  {
    TwoCasesValid();
    DriftedNumbers(C.Now);
    DriftedNumbers(C.Before);
  }

  lemma {:induction false} DriftedLeads(m: C.Moment)
    ensures Leads(DriftedTree(), TwoCases(), "B", m, 5)
  {
    var e, r := DriftedTree(), TwoCases();
    OwnerNames();
    assert "a"[0] != "b"[0] && "A"[0] != "B"[0];
    assert HeldAt(OldLeaf(), [], 0, m, 5);
    assert Held(e.children["b"], m, 5) && r.caseOf["b"] == "B";
    forall el, x | el in r.caseOf && r.caseOf[el] != "B" && el in e.children && Held(e.children[el], m, x) ensures 5 < x {
      assert el == "a" && e.children[el] == Drifted();
      var q, i: nat :| HeldAt(Drifted(), q, i, m, x);
      assert q == [];
    }
  }

  lemma {:induction false} DriftedShape()
    ensures LeavesOk(DriftedTree()) && NoPresenceConflict(DriftedTree()) && ListsHoldNoValue(DriftedTree()) && PlainChoices(DriftedTree())
  {
    DriftedLeaves();
    DriftedMeasured();
    assert LeavesOk(Drifted()) && LeavesOk(OldLeaf());
    assert forall k | k in DriftedTree().children :: DriftedTree().children[k] == Drifted() || DriftedTree().children[k] == OldLeaf();
    assert NoPresenceConflict(Drifted()) && NoPresenceConflict(OldLeaf());
  }

  /** The failing input: the lead does not change, and the device is left with elements of both cases. */
  lemma {:induction false} StrayStays(bs: Breaks, dels: set<Path>, upds: map<Path, Value>)
    requires Fair(DriftedTree(), [], bs) && Sends(DriftedTree(), false, bs, dels, upds)
    ensures Untied(DriftedTree(), [], "choice", "B", "B")
    ensures !OnlyCase(DriftedTree(), [], "choice", "B", Apply(Running(DriftedTree()), dels, upds))
  {
    var e := DriftedTree();
    DriftedShape();
    DriftedMeasured();
    DriftedLeads(C.Now);
    DriftedLeads(C.Before);
    DriftedLeaves();
    assert At(e, []) == Some(e);
    assert Untied(e, [], "choice", "B", "B");
    DriftedStray();
    assert !CoveredBy(e, false, bs, []);
    OneCaseExactly(e, bs, dels, upds, [], "choice", "B", "B");
  }

  lemma {:induction false} DriftedStray()
    ensures Stray(DriftedTree(), [], "choice", "B", "B", ["a"]) && At(DriftedTree(), ["a"]) == Some(Drifted())
  {
    var e := DriftedTree();
    DriftedLeaves();
    assert "a"[0] != "b"[0] && "A"[0] != "B"[0];
    assert ["a"][1..] == [] && ["a"][0] == "a" && At(e, ["a"]) == Some(Drifted());
    assert e.choices["choice"].caseOf["a"] == "A";
  }
}
