/** The three verdicts of an entry, CanDelete, ShouldDelete and RemainsToExist
    (pkg/tree/sharedEntryAttributes.go), when every call breaks ties between choice cases its own way:
    exactly when they fit together. */
module Verdicts {
  import opened Base
  import opened Tree
  import opened Ties
  import C = Choices
  import L = Leaves
  import opened Lookups

  // ---------------------------------------------------------------- what may and what must be deletable

  /** With some best case for each choice all active children may be deletable. */
  ghost predicate MayCan(e: Entry) {
    && L.CanDelete(e.les)
    && exists pick :: Picks(e, pick) && forall k | k in ActiveWith(e, pick) :: MayCan(e.children[k])
  }

  /** Whatever best case is looked at, all children are deletable. */
  ghost predicate MustCan(e: Entry) {
    && L.CanDelete(e.les)
    && forall k | k in e.children && MayVisit(e, k) :: MustCan(e.children[k])
  }

  // ---------------------------------------------------------------- breaks and picks

  ghost function PickOf(e: Entry, at: Path, b: Break): Pick {
    map ch | ch in e.choices :: b(at, ch)
  }

  lemma {:induction false} PickOfBreak(e: Entry, at: Path, b: Break)
    requires Admits(e, at, b, C.Now)
    ensures Picks(e, PickOf(e, at, b)) && ActiveWith(e, PickOf(e, at, b)) == ActiveBy(e, at, b)
  {
  }

  lemma {:induction false} ActiveIsVisited(e: Entry, at: Path, b: Break, k: string)
    requires Admits(e, at, b, C.Now) && k in ActiveBy(e, at, b)
    ensures MayVisit(e, k)
  {
    PickOfBreak(e, at, b);
    PickedIsVisited(e, PickOf(e, at, b), k);
  }

  lemma {:induction false} CanIsMay(e: Entry, at: Path, bs: Breaks)
    requires Fair(e, at, bs) && CanDeleteBy(e, at, bs)
    ensures MayCan(e)
    decreases e
  {
    PickOfBreak(e, at, bs.can);
    forall k | k in ActiveBy(e, at, bs.can) ensures MayCan(e.children[k]) {
      CanIsMay(e.children[k], at + [k], bs);
    }
  }

  lemma {:induction false} MustIsCan(e: Entry, at: Path, bs: Breaks)
    requires Fair(e, at, bs) && MustCan(e)
    ensures CanDeleteBy(e, at, bs)
    decreases e
  {
    forall k | k in ActiveBy(e, at, bs.can) ensures CanDeleteBy(e.children[k], at + [k], bs) {
      ActiveIsVisited(e, at, bs.can, k);
      MustIsCan(e.children[k], at + [k], bs);
    }
  }

  /** RemainsToExist is the negation of what CanDelete would say with the same look-ups. */
  lemma {:induction false} Dual(e: Entry, at: Path, bs: Breaks)
    requires LeavesOk(e)
    ensures RemainsBy(e, at, bs) <==> !CanDeleteBy(e, at, bs.(can := bs.remains))
    decreases e
  {
    L.LeafAlgebra(e.les);
    forall k | k in ActiveBy(e, at, bs.remains)
      ensures RemainsBy(e.children[k], at + [k], bs) <==> !CanDeleteBy(e.children[k], at + [k], bs.(can := bs.remains))
    {
      Dual(e.children[k], at + [k], bs);
    }
  }

  lemma {:induction false} DualFair(e: Entry, at: Path, bs: Breaks)
    requires Fair(e, at, bs)
    ensures Fair(e, at, bs.(can := bs.remains)) && Fair(e, at, bs.(remains := bs.can))
    decreases e
  {
    forall k | k in e.children
      ensures Fair(e.children[k], at + [k], bs.(can := bs.remains)) && Fair(e.children[k], at + [k], bs.(remains := bs.can))
    {
      DualFair(e.children[k], at + [k], bs);
    }
  }

  // ---------------------------------------------------------------- putting breaks together

  ghost function Split(at: Path, b: Break, f: string -> Break): Break {
    (p: Path, ch: string) => if at < p then f(p[|at|])(p, ch) else b(p, ch)
  }

  /** At `at` as in `node`, below each child as f says. */
  ghost function Graft(at: Path, node: Breaks, f: string -> Breaks): Breaks {
    Breaks(Split(at, node.can, (k: string) => f(k).can), Split(at, node.should, (k: string) => f(k).should),
           Split(at, node.remains, (k: string) => f(k).remains), Split(at, node.now, (k: string) => f(k).now),
           Split(at, node.before, (k: string) => f(k).before), Split(at, node.update, (k: string) => f(k).update))
  }

  ghost predicate SameFrom(at: Path, b: Break, b': Break) {
    forall p, ch | at <= p :: b(p, ch) == b'(p, ch)
  }

  ghost predicate AgreeFrom(at: Path, bs: Breaks, bs': Breaks) {
    && SameFrom(at, bs.can, bs'.can) && SameFrom(at, bs.should, bs'.should) && SameFrom(at, bs.remains, bs'.remains)
    && SameFrom(at, bs.now, bs'.now) && SameFrom(at, bs.before, bs'.before) && SameFrom(at, bs.update, bs'.update)
  }

  lemma {:induction false} LaterSame(at: Path, b: Break, b': Break, k: string)
    requires SameFrom(at, b, b')
    ensures SameFrom(at + [k], b, b')
  {
    forall p: Path, ch | at + [k] <= p ensures b(p, ch) == b'(p, ch) {
      assert at <= p;
    }
  }

  lemma {:induction false} AgreeBelow(at: Path, bs: Breaks, bs': Breaks, k: string)
    requires AgreeFrom(at, bs, bs')
    ensures AgreeFrom(at + [k], bs, bs')
  {
    LaterSame(at, bs.can, bs'.can, k);
    LaterSame(at, bs.should, bs'.should, k);
    LaterSame(at, bs.remains, bs'.remains, k);
    LaterSame(at, bs.now, bs'.now, k);
    LaterSame(at, bs.before, bs'.before, k);
    LaterSame(at, bs.update, bs'.update, k);
  }

  lemma {:induction false} SplitBelow(at: Path, b: Break, f: string -> Break, k: string)
    ensures SameFrom(at + [k], Split(at, b, f), f(k))
  {
    forall p: Path, ch | at + [k] <= p ensures Split(at, b, f)(p, ch) == f(k)(p, ch) {
      assert p[|at|] == (at + [k])[|at|];
    }
  }

  lemma {:induction false} GraftBelow(at: Path, node: Breaks, f: string -> Breaks, k: string)
    ensures AgreeFrom(at + [k], Graft(at, node, f), f(k))
  {
    SplitBelow(at, node.can, (k: string) => f(k).can, k);
    SplitBelow(at, node.should, (k: string) => f(k).should, k);
    SplitBelow(at, node.remains, (k: string) => f(k).remains, k);
    SplitBelow(at, node.now, (k: string) => f(k).now, k);
    SplitBelow(at, node.before, (k: string) => f(k).before, k);
    SplitBelow(at, node.update, (k: string) => f(k).update, k);
  }

  lemma {:induction false} CanAgrees(e: Entry, at: Path, bs: Breaks, bs': Breaks)
    requires AgreeFrom(at, bs, bs')
    ensures CanDeleteBy(e, at, bs) <==> CanDeleteBy(e, at, bs')
    decreases e
  {
    assert ActiveBy(e, at, bs.can) == ActiveBy(e, at, bs'.can);
    forall k | k in e.children ensures CanDeleteBy(e.children[k], at + [k], bs) <==> CanDeleteBy(e.children[k], at + [k], bs') {
      AgreeBelow(at, bs, bs', k);
      CanAgrees(e.children[k], at + [k], bs, bs');
    }
  }

  lemma {:induction false} ShouldAgrees(e: Entry, at: Path, bs: Breaks, bs': Breaks)
    requires AgreeFrom(at, bs, bs')
    ensures ShouldDeleteBy(e, at, bs) <==> ShouldDeleteBy(e, at, bs')
    decreases e
  {
    assert ActiveBy(e, at, bs.should) == ActiveBy(e, at, bs'.should);
    forall k | k in e.children
      ensures CanDeleteBy(e.children[k], at + [k], bs) <==> CanDeleteBy(e.children[k], at + [k], bs')
      ensures ShouldDeleteBy(e.children[k], at + [k], bs) <==> ShouldDeleteBy(e.children[k], at + [k], bs')
    {
      AgreeBelow(at, bs, bs', k);
      CanAgrees(e.children[k], at + [k], bs, bs');
      ShouldAgrees(e.children[k], at + [k], bs, bs');
    }
  }

  lemma {:induction false} FairAgrees(e: Entry, at: Path, bs: Breaks, bs': Breaks)
    requires AgreeFrom(at, bs, bs') && Fair(e, at, bs)
    ensures Fair(e, at, bs')
    decreases e
  {
    forall k | k in e.children ensures Fair(e.children[k], at + [k], bs') {
      AgreeBelow(at, bs, bs', k);
      FairAgrees(e.children[k], at + [k], bs, bs');
    }
  }

  lemma {:induction false} GraftFair(e: Entry, at: Path, node: Breaks, f: string -> Breaks)
    requires FairHere(e, at, node) && forall k | k in e.children :: Fair(e.children[k], at + [k], f(k))
    ensures Fair(e, at, Graft(at, node, f))
  {
    var bs := Graft(at, node, f);
    forall k | k in e.children ensures Fair(e.children[k], at + [k], bs) {
      GraftBelow(at, node, f, k);
      AgreeBack(at + [k], bs, f(k));
      FairAgrees(e.children[k], at + [k], f(k), bs);
    }
  }

  lemma {:induction false} AgreeBack(at: Path, bs: Breaks, bs': Breaks)
    requires AgreeFrom(at, bs, bs')
    ensures AgreeFrom(at, bs', bs)
  {
  }

  // ---------------------------------------------------------------- breaks that bring a verdict about

  /** A pick with which the child k is active. */
  ghost function VisitPick(e: Entry, k: string): (pick: Pick)
    requires MayVisit(e, k)
    ensures Picks(e, pick) && k in ActiveWith(e, pick)
  {
    if e.schema.None? then BestPick(e)
    else map ch | ch in e.choices :: if k in e.choices[ch].caseOf then Some(e.choices[ch].caseOf[k]) else C.Best(e.choices[ch], C.Now)
  }

  ghost function Constant(pick: Pick): Break {
    (p: Path, ch: string) => if ch in pick then pick[ch] else None
  }

  /** The same picks at every path: used at one entry only. */
  ghost function NodeBreaks(e: Entry, can: Pick, should: Pick): Breaks {
    Breaks(Constant(can), Constant(should), Constant(can),
           (p: Path, ch: string) => if ch in e.choices then C.BestPair(e.choices[ch]).0 else None,
           (p: Path, ch: string) => if ch in e.choices then C.BestPair(e.choices[ch]).1 else None,
           Constant(can))
  }

  lemma {:induction false} NodeIsFair(e: Entry, at: Path, can: Pick, should: Pick)
    requires Picks(e, can) && Picks(e, should)
    ensures FairHere(e, at, NodeBreaks(e, can, should))
  {
    forall ch | ch in e.choices
      ensures C.OnePass(e.choices[ch], NodeBreaks(e, can, should).now(at, ch), NodeBreaks(e, can, should).before(at, ch))
    {
    }
  }

  lemma {:induction false} ConstantActive(e: Entry, at: Path, pick: Pick)
    requires Picks(e, pick)
    ensures ActiveBy(e, at, Constant(pick)) == ActiveWith(e, pick)
  {
  }

  /** The active children under grafted breaks are those of the entry's own picks. */
  lemma {:induction false} GraftActive(e: Entry, at: Path, can: Pick, should: Pick, f: string -> Breaks)
    requires Picks(e, can) && Picks(e, should)
    ensures var bs := Graft(at, NodeBreaks(e, can, should), f);
            ActiveBy(e, at, bs.can) == ActiveWith(e, can) && ActiveBy(e, at, bs.should) == ActiveWith(e, should)
  {
    var bs := Graft(at, NodeBreaks(e, can, should), f);
    ConstantActive(e, at, can);
    ConstantActive(e, at, should);
    forall ch ensures bs.can(at, ch) == Constant(can)(at, ch) && bs.should(at, ch) == Constant(should)(at, ch) {
    }
    assert ActiveBy(e, at, bs.can) == ActiveBy(e, at, Constant(can));
    assert ActiveBy(e, at, bs.should) == ActiveBy(e, at, Constant(should));
  }

  ghost function Nothing(): Breaks {
    var none: Break := (p: Path, ch: string) => None;
    Breaks(none, none, none, none, none, none)
  }

  ghost function AnyBreaks(e: Entry, at: Path): Breaks {
    Graft(at, NodeBreaks(e, BestPick(e), BestPick(e)),
          (k: string) => if k in e.children then AnyBreaks(e.children[k], at + [k]) else Nothing())
  }

  lemma {:induction false} AnyIsFair(e: Entry, at: Path)
    ensures Fair(e, at, AnyBreaks(e, at))
    decreases e
  {
    forall k | k in e.children ensures Fair(e.children[k], at + [k], AnyBreaks(e.children[k], at + [k])) {
      AnyIsFair(e.children[k], at + [k]);
    }
    NodeIsFair(e, at, BestPick(e), BestPick(e));
    GraftFair(e, at, NodeBreaks(e, BestPick(e), BestPick(e)),
              (k: string) => if k in e.children then AnyBreaks(e.children[k], at + [k]) else Nothing());
  }

  ghost function CanPick(e: Entry): (pick: Pick)
    requires MayCan(e)
    ensures Picks(e, pick) && forall k | k in ActiveWith(e, pick) :: MayCan(e.children[k])
  {
    var pick :| Picks(e, pick) && forall k | k in ActiveWith(e, pick) :: MayCan(e.children[k]);
    pick
  }

  ghost function CanBelow(e: Entry, at: Path): string -> Breaks
    decreases e, 0
  {
    (k: string) =>
      if k !in e.children then Nothing()
      else if MayCan(e.children[k]) then CanBreaks(e.children[k], at + [k])
      else AnyBreaks(e.children[k], at + [k])
  }

  /** Breaks under which the entry is deletable. */
  ghost function CanBreaks(e: Entry, at: Path): Breaks
    requires MayCan(e)
    decreases e, 1
  {
    Graft(at, NodeBreaks(e, CanPick(e), CanPick(e)), CanBelow(e, at))
  }

  lemma {:induction false} CanBreaksWork(e: Entry, at: Path)
    requires MayCan(e)
    ensures Fair(e, at, CanBreaks(e, at)) && CanDeleteBy(e, at, CanBreaks(e, at))
    decreases e
  {
    var pick, f, bs := CanPick(e), CanBelow(e, at), CanBreaks(e, at);
    forall k | k in e.children
      ensures Fair(e.children[k], at + [k], f(k))
      ensures MayCan(e.children[k]) ==> CanDeleteBy(e.children[k], at + [k], f(k))
    {
      if MayCan(e.children[k]) {
        CanBreaksWork(e.children[k], at + [k]);
      } else {
        AnyIsFair(e.children[k], at + [k]);
      }
    }
    NodeIsFair(e, at, pick, pick);
    GraftFair(e, at, NodeBreaks(e, pick, pick), f);
    GraftActive(e, at, pick, pick, f);
    forall k | k in ActiveBy(e, at, bs.can) ensures CanDeleteBy(e.children[k], at + [k], bs) {
      GraftBelow(at, NodeBreaks(e, pick, pick), f, k);
      CanAgrees(e.children[k], at + [k], bs, f(k));
    }
  }

  /** A child that some look-up visits and that is not always deletable. */
  ghost function StuckChild(e: Entry): (k: string)
    requires !MustCan(e) && L.CanDelete(e.les)
    ensures k in e.children && MayVisit(e, k) && !MustCan(e.children[k])
  {
    var k :| k in e.children && MayVisit(e, k) && !MustCan(e.children[k]);
    k
  }

  ghost function StuckPick(e: Entry): (pick: Pick)
    requires !MustCan(e)
    ensures Picks(e, pick)
  {
    if L.CanDelete(e.les) then VisitPick(e, StuckChild(e)) else BestPick(e)
  }

  ghost function StuckBelow(e: Entry, at: Path): string -> Breaks
    decreases e, 0
  {
    (k: string) =>
      if k !in e.children then Nothing()
      else if !MustCan(e.children[k]) then StuckBreaks(e.children[k], at + [k])
      else AnyBreaks(e.children[k], at + [k])
  }

  /** Breaks under which the entry is not deletable. */
  ghost function StuckBreaks(e: Entry, at: Path): Breaks
    requires !MustCan(e)
    decreases e, 1
  {
    Graft(at, NodeBreaks(e, StuckPick(e), StuckPick(e)), StuckBelow(e, at))
  }

  lemma {:induction false} StuckBreaksWork(e: Entry, at: Path)
    requires !MustCan(e)
    ensures Fair(e, at, StuckBreaks(e, at)) && !CanDeleteBy(e, at, StuckBreaks(e, at))
    decreases e
  {
    var pick, f, bs := StuckPick(e), StuckBelow(e, at), StuckBreaks(e, at);
    forall k | k in e.children
      ensures Fair(e.children[k], at + [k], f(k))
      ensures !MustCan(e.children[k]) ==> !CanDeleteBy(e.children[k], at + [k], f(k))
    {
      if !MustCan(e.children[k]) {
        StuckBreaksWork(e.children[k], at + [k]);
      } else {
        AnyIsFair(e.children[k], at + [k]);
      }
    }
    NodeIsFair(e, at, pick, pick);
    GraftFair(e, at, NodeBreaks(e, pick, pick), f);
    GraftActive(e, at, pick, pick, f);
    if L.CanDelete(e.les) {
      var k := StuckChild(e);
      GraftBelow(at, NodeBreaks(e, pick, pick), f, k);
      CanAgrees(e.children[k], at + [k], bs, f(k));
    }
  }

  // ---------------------------------------------------------------- CanDelete and RemainsToExist

  /** Breaks under which CanDelete and RemainsToExist both say yes. */
  lemma {:induction false} BothYes(e: Entry, at: Path) returns (bs: Breaks)
    requires LeavesOk(e) && MayCan(e) && !MustCan(e)
    ensures Fair(e, at, bs) && CanDeleteBy(e, at, bs) && RemainsBy(e, at, bs)
  {
    var can, stuck := CanBreaks(e, at), StuckBreaks(e, at);
    CanBreaksWork(e, at);
    StuckBreaksWork(e, at);
    bs := can.(remains := stuck.can);
    MixFair(e, at, can, stuck);
    CanOnly(e, at, bs, can);
    Dual(e, at, bs);
    CanOnly(e, at, bs.(can := bs.remains), stuck);
  }

  lemma {:induction false} MixFair(e: Entry, at: Path, a: Breaks, b: Breaks)
    requires Fair(e, at, a) && Fair(e, at, b)
    ensures Fair(e, at, a.(remains := b.can))
    decreases e
  {
    forall k | k in e.children ensures Fair(e.children[k], at + [k], a.(remains := b.can)) {
      MixFair(e.children[k], at + [k], a, b);
    }
  }

  /** CanDelete depends on its own look-ups only. */
  lemma {:induction false} CanOnly(e: Entry, at: Path, bs: Breaks, bs': Breaks)
    requires bs.can == bs'.can
    ensures CanDeleteBy(e, at, bs) <==> CanDeleteBy(e, at, bs')
    decreases e
  {
    forall k | k in e.children ensures CanDeleteBy(e.children[k], at + [k], bs) <==> CanDeleteBy(e.children[k], at + [k], bs') {
      CanOnly(e.children[k], at + [k], bs, bs');
    }
  }

  ghost predicate RemainsIsNotCan(e: Entry, at: Path, bs: Breaks) {
    RemainsBy(e, at, bs) <==> !CanDeleteBy(e, at, bs)
  }

  /** However ties break, RemainsToExist is the negation of CanDelete, if and only if an entry that
      some best cases let go is let go by all of them. */
  lemma {:induction false} AlgebraExactly(e: Entry, at: Path)
    requires LeavesOk(e)
    ensures (forall bs | Fair(e, at, bs) :: RemainsIsNotCan(e, at, bs)) <==> (MayCan(e) ==> MustCan(e))
  {
    if MayCan(e) ==> MustCan(e) {
      forall bs | Fair(e, at, bs) ensures RemainsIsNotCan(e, at, bs) {
        Definite(e, at, bs);
      }
    } else {
      var bs := BothYes(e, at);
      assert !RemainsIsNotCan(e, at, bs);
    }
  }

  lemma {:induction false} Definite(e: Entry, at: Path, bs: Breaks)
    requires LeavesOk(e) && Fair(e, at, bs) && (MayCan(e) ==> MustCan(e))
    ensures RemainsIsNotCan(e, at, bs) && (CanDeleteBy(e, at, bs) <==> MustCan(e))
  {
    var dual := bs.(can := bs.remains);
    Dual(e, at, bs);
    DualFair(e, at, bs);
    if MustCan(e) {
      MustIsCan(e, at, bs);
      MustIsCan(e, at, dual);
    } else {
      if CanDeleteBy(e, at, bs) {
        CanIsMay(e, at, bs);
      }
      if CanDeleteBy(e, at, dual) {
        CanIsMay(e, at, dual);
      }
    }
  }

  /** Without ties the verdict does not depend on the look-ups. */
  lemma {:induction false} NoTiesDefinite(e: Entry)
    requires NoTies(e)
    ensures MayCan(e) ==> CanDelete(e)
    ensures CanDelete(e) ==> MustCan(e)
    decreases e
  {
    if MayCan(e) {
      var pick := CanPick(e);
      PickedAlone(e, pick);
      forall k | k in Active(e) ensures CanDelete(e.children[k]) {
        NoTiesDefinite(e.children[k]);
      }
    }
    if CanDelete(e) {
      forall k | k in e.children && MayVisit(e, k) ensures MustCan(e.children[k]) {
        OneWay(e, k);
        NoTiesDefinite(e.children[k]);
      }
    }
  }

  lemma {:induction false} PickedAlone(e: Entry, pick: Pick)
    requires NodeNoTie(e) && Picks(e, pick)
    ensures ActiveWith(e, pick) == Active(e)
  {
    if e.schema.Some? {
      forall ch | ch in e.choices ensures pick[ch] == C.Best(e.choices[ch], C.Now) {
        BestAlone(e.choices[ch], pick[ch]);
      }
      forall k | k in e.children ensures k in C.Skip(e.choices) <==> exists ch :: ch in e.choices && k in C.SkipOf(e.choices[ch], pick[ch]) {
      }
    }
  }

  /** Without ties RemainsToExist is the negation of CanDelete. */
  lemma {:induction false} AlgebraWithoutTies(e: Entry, at: Path, bs: Breaks)
    requires LeavesOk(e) && NoTies(e) && Fair(e, at, bs)
    ensures RemainsIsNotCan(e, at, bs)
  {
    NoTiesDefinite(e);
    Definite(e, at, bs);
  }

  // ---------------------------------------------------------------- ShouldDelete and CanDelete

  /** Looking at the best cases of s, the children give reason to delete the entry. */
  ghost predicate ChildrenAsk(e: Entry, s: Pick)
    decreases e, 0
  {
    && Picks(e, s)
    && (if ActiveWith(e, s) == {} then e.choices != map[]
        else
          && (forall k | k in ActiveWith(e, s) :: MayCan(e.children[k]))
          && (exists k | k in ActiveWith(e, s) :: MayBoth(e.children[k])))
  }

  /** With some look-ups the entry is both to be deleted and deletable. */
  ghost predicate MayBoth(e: Entry)
    decreases e, 2
  {
    || (L.ShouldDelete(e.les) && MayCan(e))
    || (L.CanDelete(e.les) && MayAsk(e))
  }

  ghost predicate MayAsk(e: Entry)
    decreases e, 1
  {
    exists s :: Picks(e, s) && ChildrenAsk(e, s)
  }

  /** Some look-ups of ShouldDelete find reason to delete the entry, while CanDelete may visit a
      child of another best case that stays. */
  ghost predicate TieMismatch(e: Entry) {
    L.CanDelete(e.les) &&
    exists s, k :: ChildrenAsk(e, s) && k in e.children && MayVisit(e, k) && k !in ActiveWith(e, s) && !MustCan(e.children[k])
  }

  /** The entry's own value is to be deleted while something below may stay. */
  ghost predicate MayPresenceConflict(e: Entry) {
    L.ShouldDelete(e.les) && !MustCan(e)
  }

  lemma {:induction false} AskIsMay(e: Entry, at: Path, bs: Breaks)
    requires Fair(e, at, bs) && ShouldDeleteBy(e, at, bs) && !L.ShouldDelete(e.les)
    ensures L.CanDelete(e.les) && ChildrenAsk(e, PickOf(e, at, bs.should))
    decreases e, 0
  {
    PickOfBreak(e, at, bs.should);
    var act := ActiveBy(e, at, bs.should);
    forall k | k in act && act != {} ensures MayCan(e.children[k]) {
      CanIsMay(e.children[k], at + [k], bs);
    }
    if act != {} {
      var k :| k in act && ShouldDeleteBy(e.children[k], at + [k], bs);
      BothIsMay(e.children[k], at + [k], bs);
    }
  }

  lemma {:induction false} BothIsMay(e: Entry, at: Path, bs: Breaks)
    requires Fair(e, at, bs) && ShouldDeleteBy(e, at, bs) && CanDeleteBy(e, at, bs)
    ensures MayBoth(e)
    decreases e, 1
  {
    if L.ShouldDelete(e.les) {
      CanIsMay(e, at, bs);
    } else {
      AskIsMay(e, at, bs);
    }
  }

  ghost function AskPick(e: Entry): (s: Pick)
    requires MayAsk(e)
    ensures ChildrenAsk(e, s)
  {
    var s :| Picks(e, s) && ChildrenAsk(e, s);
    s
  }

  ghost function BothBelow(e: Entry, at: Path): string -> Breaks
    decreases e, 0
  {
    (k: string) =>
      if k !in e.children then Nothing()
      else if MayBoth(e.children[k]) then BothBreaks(e.children[k], at + [k])
      else if MayCan(e.children[k]) then CanBreaks(e.children[k], at + [k])
      else AnyBreaks(e.children[k], at + [k])
  }

  /** Breaks under which the entry is both to be deleted and deletable. */
  ghost function BothBreaks(e: Entry, at: Path): Breaks
    requires MayBoth(e)
    decreases e, 1
  {
    if L.ShouldDelete(e.les) && MayCan(e) then CanBreaks(e, at)
    else Graft(at, NodeBreaks(e, AskPick(e), AskPick(e)), BothBelow(e, at))
  }

  lemma {:induction false} BothBelowWorks(e: Entry, at: Path, k: string)
    requires k in e.children
    ensures Fair(e.children[k], at + [k], BothBelow(e, at)(k))
    ensures MayBoth(e.children[k]) ==>
              ShouldDeleteBy(e.children[k], at + [k], BothBelow(e, at)(k)) && CanDeleteBy(e.children[k], at + [k], BothBelow(e, at)(k))
    ensures MayCan(e.children[k]) ==> CanDeleteBy(e.children[k], at + [k], BothBelow(e, at)(k))
    decreases e, 0
  {
    var child := e.children[k];
    if MayBoth(child) {
      BothBreaksWork(child, at + [k]);
    } else if MayCan(child) {
      CanBreaksWork(child, at + [k]);
    } else {
      AnyIsFair(child, at + [k]);
    }
  }

  /** Grafted breaks carry the verdicts of the children. */
  lemma {:induction false} GraftVerdicts(e: Entry, at: Path, node: Breaks, f: string -> Breaks, k: string)
    requires k in e.children
    ensures CanDeleteBy(e.children[k], at + [k], Graft(at, node, f)) <==> CanDeleteBy(e.children[k], at + [k], f(k))
    ensures ShouldDeleteBy(e.children[k], at + [k], Graft(at, node, f)) <==> ShouldDeleteBy(e.children[k], at + [k], f(k))
  {
    GraftBelow(at, node, f, k);
    CanAgrees(e.children[k], at + [k], Graft(at, node, f), f(k));
    ShouldAgrees(e.children[k], at + [k], Graft(at, node, f), f(k));
  }

  lemma {:induction false} BothBreaksWork(e: Entry, at: Path)
    requires MayBoth(e)
    ensures Fair(e, at, BothBreaks(e, at)) && ShouldDeleteBy(e, at, BothBreaks(e, at)) && CanDeleteBy(e, at, BothBreaks(e, at))
    decreases e, 1
  {
    if L.ShouldDelete(e.les) && MayCan(e) {
      CanBreaksWork(e, at);
    } else {
      var s, f := AskPick(e), BothBelow(e, at);
      var node := NodeBreaks(e, s, s);
      forall k | k in e.children
        ensures Fair(e.children[k], at + [k], f(k))
        ensures MayBoth(e.children[k]) ==> ShouldDeleteBy(e.children[k], at + [k], Graft(at, node, f))
        ensures MayCan(e.children[k]) ==> CanDeleteBy(e.children[k], at + [k], Graft(at, node, f))
      {
        BothBelowWorks(e, at, k);
        GraftVerdicts(e, at, node, f, k);
      }
      NodeIsFair(e, at, s, s);
      GraftFair(e, at, node, f);
      GraftActive(e, at, s, s, f);
    }
  }

  /** As BothBelow, but the child k is not deletable. */
  ghost function MismatchBelow(e: Entry, at: Path, k: string): string -> Breaks
    requires k in e.children && !MustCan(e.children[k])
  {
    (x: string) => if x == k then StuckBreaks(e.children[k], at + [k]) else BothBelow(e, at)(x)
  }

  lemma {:induction false} MismatchWitness(e: Entry, at: Path, s: Pick, k: string) returns (bs: Breaks)
    requires L.CanDelete(e.les) && ChildrenAsk(e, s) && k in e.children && MayVisit(e, k) && k !in ActiveWith(e, s) && !MustCan(e.children[k])
    ensures Fair(e, at, bs) && ShouldDeleteBy(e, at, bs) && !CanDeleteBy(e, at, bs)
  {
    var can, f := VisitPick(e, k), MismatchBelow(e, at, k);
    var node := NodeBreaks(e, can, s);
    bs := Graft(at, node, f);
    StuckBreaksWork(e.children[k], at + [k]);
    forall x | x in e.children
      ensures Fair(e.children[x], at + [x], f(x))
      ensures x != k && MayBoth(e.children[x]) ==> ShouldDeleteBy(e.children[x], at + [x], bs)
      ensures x != k && MayCan(e.children[x]) ==> CanDeleteBy(e.children[x], at + [x], bs)
    {
      BothBelowWorks(e, at, x);
      GraftVerdicts(e, at, node, f, x);
    }
    GraftVerdicts(e, at, node, f, k);
    NodeIsFair(e, at, can, s);
    GraftFair(e, at, node, f);
    GraftActive(e, at, can, s, f);
  }

  ghost predicate ShouldIsCan(e: Entry, at: Path, bs: Breaks) {
    ShouldDeleteBy(e, at, bs) ==> CanDeleteBy(e, at, bs)
  }

  lemma {:induction false} MismatchNeeded(e: Entry, at: Path, bs: Breaks)
    requires LeavesOk(e) && Fair(e, at, bs) && ShouldDeleteBy(e, at, bs) && !CanDeleteBy(e, at, bs)
    ensures MayPresenceConflict(e) || TieMismatch(e)
  {
    if L.ShouldDelete(e.les) {
      if MustCan(e) {
        MustIsCan(e, at, bs);
      }
    } else {
      AskIsMay(e, at, bs);
      PickOfBreak(e, at, bs.should);
      var k :| k in ActiveBy(e, at, bs.can) && !CanDeleteBy(e.children[k], at + [k], bs);
      ActiveIsVisited(e, at, bs.can, k);
      if MustCan(e.children[k]) {
        MustIsCan(e.children[k], at + [k], bs);
      }
    }
  }

  /** However ties break, ShouldDelete implies CanDelete, if and only if the entry is neither in
      presence conflict nor mismatched by a tie. */
  lemma {:induction false} ShouldImpliesCanExactly(e: Entry, at: Path)
    requires LeavesOk(e)
    ensures (forall bs | Fair(e, at, bs) :: ShouldIsCan(e, at, bs)) <==> !MayPresenceConflict(e) && !TieMismatch(e)
  {
    if MayPresenceConflict(e) {
      StuckBreaksWork(e, at);
      assert !ShouldIsCan(e, at, StuckBreaks(e, at));
    } else if TieMismatch(e) {
      var s, k :| ChildrenAsk(e, s) && k in e.children && MayVisit(e, k) && k !in ActiveWith(e, s) && !MustCan(e.children[k]);
      var bs := MismatchWitness(e, at, s, k);
      assert !ShouldIsCan(e, at, bs);
    } else {
      forall bs | Fair(e, at, bs) ensures ShouldIsCan(e, at, bs) {
        if ShouldDeleteBy(e, at, bs) && !CanDeleteBy(e, at, bs) {
          MismatchNeeded(e, at, bs);
        }
      }
    }
  }

  /** Without ties only the presence conflict is left. */
  lemma {:induction false} ShouldImpliesCanWithoutTies(e: Entry, at: Path, bs: Breaks)
    requires LeavesOk(e) && NoTies(e) && Fair(e, at, bs)
    ensures ShouldIsCan(e, at, bs) <==> !PresenceConflict(e)
  {
    CanDeleteByOneWay(e, at, bs);
    ShouldDeleteByOneWay(e, at, bs);
    ShouldImpliesCan(e);
  }

  // ---------------------------------------------------------------- what a deleted entry takes along

  lemma {:induction false} MustCanBelow(e: Entry, p: Path)
    requires MustCan(e) && MayReach(e, p)
    ensures At(e, p).Some? && L.CanDelete(At(e, p).value.les)
    decreases p
  {
    if p != [] {
      MustCanBelow(e.children[p[0]], p[1..]);
    }
  }

  /** An entry that is to be deleted takes no surviving leaf with it that any walk may reach, if
      its verdicts do not depend on ties. */
  lemma {:induction false} DeletedTakesNothing(e: Entry, at: Path, bs: Breaks, p: Path)
    requires LeavesOk(e) && Fair(e, at, bs) && ShouldDeleteBy(e, at, bs) && MayReach(e, p)
    requires !MayPresenceConflict(e) && !TieMismatch(e) && (MayCan(e) ==> MustCan(e))
    ensures At(e, p).Some? && L.CanDelete(At(e, p).value.les)
  {
    if !CanDeleteBy(e, at, bs) {
      MismatchNeeded(e, at, bs);
    }
    CanIsMay(e, at, bs);
    MustCanBelow(e, p);
  }

  // ---------------------------------------------------------------- a tree whose verdicts do not fit

  /** A leaf on the device that an explicit delete removes. */
  function RemovedLeaf(): Entry {
    Entry(Some(Field("string")), map[],
          [L.LeafEntry("k", 3, Value("empty", ""), false, true, false, false, true), Variant("j", 5, true),
           L.LeafEntry(RUNNING, RUNNING_PRIO, Value("string", "y"), false, false, false, false, false)], map[], {})
  }

  function TornTree(): Entry {
    TiedTree().(children := map["a" := OldLeaf(), "b" := RemovedLeaf()])
  }

  lemma {:induction false} LeafMay(e: Entry)
    requires e.children == map[] && e.choices == map[]
    ensures MayCan(e) <==> L.CanDelete(e.les)
    ensures MustCan(e) <==> L.CanDelete(e.les)
  {
    var pick: Pick := map[];
    assert Picks(e, pick) && ActiveWith(e, pick) == {};
  }

  lemma {:induction false} RemovedLeafVerdicts()
    ensures L.WellFormed(RemovedLeaf().les) && L.CanDelete(RemovedLeaf().les) && L.ShouldDelete(RemovedLeaf().les)
  {
    var les := RemovedLeaf().les;
    OwnerNames();
    assert les[0].owner != les[1].owner && |RUNNING| == 7;
    assert L.IsFirstMin(les, 3, 0);
    L.HighestIsFirstMin(les, 3);
    assert L.Highest(les) == les[0] && L.HighestExplicit(les);
    L.ByOwnerAt(les, 2);
    L.CanDeleteMeaning(les);
  }

  lemma {:induction false} OldLeafStays()
    ensures L.WellFormed(OldLeaf().les) && !L.CanDelete(OldLeaf().les)
  {
    OwnerNames();
    assert OldLeaf().les[0].Survives();
    L.CanDeleteMeaning(OldLeaf().les);
  }

  function BPick(): Pick {
    map["choice" := Some("B")]
  }

  lemma {:induction false} TiedCases()
    ensures C.Tied().caseOf.Keys == {"a", "b"} && C.Tied().caseOf["a"] == "A" && C.Tied().caseOf["b"] == "B" && "a" != "b"
    ensures C.SkipOf(C.Tied(), Some("B")) == {"a"}
  {
    assert "A"[0] != "B"[0] && "a"[0] != "b"[0];
  }

  lemma {:induction false} TornActive()
    ensures Picks(TornTree(), BPick()) && ActiveWith(TornTree(), BPick()) == {"b"}
    ensures TornTree().children == map["a" := OldLeaf(), "b" := RemovedLeaf()] && TornTree().choices == map["choice" := C.Tied()]
  {
    var e, pick := TornTree(), BPick();
    C.TiedBestCases();
    TiedCases();
    forall k | k in e.children ensures k in ActiveWith(e, pick) <==> k == "b" {
      assert e.choices["choice"] == C.Tied() && pick["choice"] == Some("B");
      assert k == "a" || k == "b";
      assert k in C.SkipOf(e.choices["choice"], pick["choice"]) <==> k == "a";
    }
  }

  lemma {:induction false} TornVisit()
    ensures MayVisit(TornTree(), "a")
  {
    C.TiedBestCases();
    TiedCases();
    TornActive();
  }

  lemma {:induction false} TornLeaves()
    ensures MayCan(RemovedLeaf()) && MayBoth(RemovedLeaf()) && !MustCan(OldLeaf())
    ensures LeavesOk(OldLeaf()) && LeavesOk(RemovedLeaf())
  {
    RemovedLeafVerdicts();
    OldLeafStays();
    LeafMay(OldLeaf());
    LeafMay(RemovedLeaf());
  }

  lemma {:induction false} TornAsks()
    ensures ChildrenAsk(TornTree(), BPick()) && MayCan(TornTree())
  {
    TornActive();
    TornLeaves();
    TiedCases();
    assert TornTree().children["b"] == RemovedLeaf();
  }

  lemma {:induction false} TornStays()
    ensures !MustCan(TornTree()) && !MustCan(TornTree().children["a"]) && LeavesOk(TornTree())
  {
    TornActive();
    TornLeaves();
    TornVisit();
    TiedCases();
    assert TornTree().children["a"] == OldLeaf() && TornTree().children["b"] == RemovedLeaf();
  }

  /** The failing input: with a tie, CanDelete may say yes with RemainsToExist, and no with
      ShouldDelete, although there is no presence conflict. */
  lemma {:induction false} TornVerdicts()
    ensures LeavesOk(TornTree()) && MayCan(TornTree()) && !MustCan(TornTree())
    ensures TieMismatch(TornTree()) && !MayPresenceConflict(TornTree())
  {
    TornAsks();
    TornStays();
    TornVisit();
    TornActive();
    TiedCases();
    assert TornTree().les == [];
    assert "a" !in ActiveWith(TornTree(), BPick());
  }
}
