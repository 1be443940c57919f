/** The memoised decisions (pkg/tree/sharedEntryAttributes.go). Each entry's three caches are
    kept in maps keyed by the entry's path; an absent key is an unset cache. How the calls broke
    ties between choice cases is recorded beside them, so that every cached answer can be compared
    with the answer under one and the same way of breaking ties. */
module Caching {
  import opened Base
  import opened Tree
  import opened Lookups
  import opened Ties
  import R = Resolution
  import V = Verdicts
  import C = Choices
  import L = Leaves

  datatype Question = CanDeleteQ | ShouldDeleteQ | RemainsQ

  ghost predicate AnswerBy(e: Entry, at: Path, q: Question, bs: Breaks) {
    match q
    case CanDeleteQ => CanDeleteBy(e, at, bs)
    case ShouldDeleteQ => ShouldDeleteBy(e, at, bs)
    case RemainsQ => RemainsBy(e, at, bs)
  }

  ghost predicate Answer(e: Entry, q: Question) {
    match q
    case CanDeleteQ => CanDelete(e)
    case ShouldDeleteQ => ShouldDelete(e)
    case RemainsQ => RemainsToExist(e)
  }

  /** The caches, and how ties were broken. */
  datatype Memo = Memo(can: map<Path, bool>, should: map<Path, bool>, remains: map<Path, bool>, bs: Breaks)

  ghost function CacheOf(m: Memo, q: Question): map<Path, bool> {
    match q
    case CanDeleteQ => m.can
    case ShouldDeleteQ => m.should
    case RemainsQ => m.remains
  }

  ghost predicate Says(c: map<Path, bool>, p: Path, v: bool) {
    p in c && c[p] == v
  }

  // ---------------------------------------------------------------- cached answers have their reasons

  /** The reason for an answer of CanDelete, with these active children. */
  ghost predicate CanFor(e: Entry, at: Path, m: Memo, act: set<string>, r: bool) {
    if r then L.CanDelete(e.les) && forall k | k in act :: Says(m.can, at + [k], true)
    else !L.CanDelete(e.les) || exists k | k in act :: Says(m.can, at + [k], false)
  }

  ghost predicate ShouldFor(e: Entry, at: Path, m: Memo, act: set<string>, r: bool) {
    if r then
      || L.ShouldDelete(e.les)
      || (&& L.CanDelete(e.les)
          && if act == {} then e.choices != map[]
             else (forall k | k in act :: Says(m.can, at + [k], true)) && exists k | k in act :: Says(m.should, at + [k], true))
    else
      && !L.ShouldDelete(e.les)
      && (L.CanDelete(e.les) ==>
            if act == {} then e.choices == map[]
            else (exists k | k in act :: Says(m.can, at + [k], false)) || forall k | k in act :: Says(m.should, at + [k], false))
  }

  ghost predicate RemainsFor(e: Entry, at: Path, m: Memo, act: set<string>, r: bool) {
    if r then L.RemainsToExist(e.les) || exists k | k in act :: Says(m.remains, at + [k], true)
    else !L.RemainsToExist(e.les) && forall k | k in act :: Says(m.remains, at + [k], false)
  }

  ghost predicate CanBacked(e: Entry, at: Path, m: Memo) {
    at in m.can ==> CanFor(e, at, m, ActiveBy(e, at, m.bs.can), m.can[at])
  }

  ghost predicate ShouldBacked(e: Entry, at: Path, m: Memo) {
    at in m.should ==> ShouldFor(e, at, m, ActiveBy(e, at, m.bs.should), m.should[at])
  }

  ghost predicate RemainsBacked(e: Entry, at: Path, m: Memo) {
    at in m.remains ==> RemainsFor(e, at, m, ActiveBy(e, at, m.bs.remains), m.remains[at])
  }

  ghost predicate BackedHere(e: Entry, at: Path, m: Memo) {
    CanBacked(e, at, m) && ShouldBacked(e, at, m) && RemainsBacked(e, at, m)
  }

  ghost predicate FairAll(root: Entry, bs: Breaks) {
    forall p | At(root, p).Some? :: FairHere(At(root, p).value, p, bs)
  }

  /** With an entry the scope holds every child that may be visited from it. */
  ghost predicate Closed(root: Entry, scope: iset<Path>) {
    forall p, k | p in scope && At(root, p).Some? && MayVisit(At(root, p).value, k) :: p + [k] in scope
  }

  ghost predicate Backed(root: Entry, m: Memo, scope: iset<Path>) {
    forall p | p in scope && At(root, p).Some? :: BackedHere(At(root, p).value, p, m)
  }

  /** The caches of the entries in scope can be relied on. */
  ghost predicate GoodFor(root: Entry, m: Memo, scope: iset<Path>) {
    FairAll(root, m.bs) && Closed(root, scope) && Backed(root, m, scope)
  }

  lemma {:induction false} FairFrom(root: Entry, bs: Breaks, at: Path, e: Entry)
    requires FairAll(root, bs) && At(root, at) == Some(e)
    ensures Fair(e, at, bs)
    decreases e
  {
    forall k | k in e.children ensures Fair(e.children[k], at + [k], bs) {
      AtChild(root, at, k);
      FairFrom(root, bs, at + [k], e.children[k]);
    }
  }

  /** What is active at an entry in scope is in scope. */
  lemma {:induction false} ActiveInScope(root: Entry, bs: Breaks, scope: iset<Path>, p: Path, e: Entry, b: Break, k: string)
    requires FairAll(root, bs) && Closed(root, scope) && p in scope && At(root, p) == Some(e)
    requires Admits(e, p, b, C.Now) && k in ActiveBy(e, p, b)
    ensures p + [k] in scope && At(root, p + [k]) == Some(e.children[k])
  {
    V.ActiveIsVisited(e, p, b, k);
    AtChild(root, p, k);
  }

  lemma {:induction false} BackedCan(root: Entry, m: Memo, scope: iset<Path>, p: Path, e: Entry)
    requires GoodFor(root, m, scope) && p in scope && At(root, p) == Some(e) && p in m.can
    ensures m.can[p] <==> CanDeleteBy(e, p, m.bs)
    decreases e
  {
    assert FairHere(e, p, m.bs) && BackedHere(e, p, m);
    forall k | k in ActiveBy(e, p, m.bs.can) && p + [k] in m.can
      ensures m.can[p + [k]] <==> CanDeleteBy(e.children[k], p + [k], m.bs)
    {
      ActiveInScope(root, m.bs, scope, p, e, m.bs.can, k);
      BackedCan(root, m, scope, p + [k], e.children[k]);
    }
  }

  lemma {:induction false} BackedShould(root: Entry, m: Memo, scope: iset<Path>, p: Path, e: Entry)
    requires GoodFor(root, m, scope) && p in scope && At(root, p) == Some(e) && p in m.should
    ensures m.should[p] <==> ShouldDeleteBy(e, p, m.bs)
    decreases e
  {
    assert FairHere(e, p, m.bs) && BackedHere(e, p, m);
    forall k | k in ActiveBy(e, p, m.bs.should)
      ensures p + [k] in m.can ==> (m.can[p + [k]] <==> CanDeleteBy(e.children[k], p + [k], m.bs))
      ensures p + [k] in m.should ==> (m.should[p + [k]] <==> ShouldDeleteBy(e.children[k], p + [k], m.bs))
    {
      ActiveInScope(root, m.bs, scope, p, e, m.bs.should, k);
      if p + [k] in m.can {
        BackedCan(root, m, scope, p + [k], e.children[k]);
      }
      if p + [k] in m.should {
        BackedShould(root, m, scope, p + [k], e.children[k]);
      }
    }
  }

  lemma {:induction false} BackedRemains(root: Entry, m: Memo, scope: iset<Path>, p: Path, e: Entry)
    requires GoodFor(root, m, scope) && p in scope && At(root, p) == Some(e) && p in m.remains
    ensures m.remains[p] <==> RemainsBy(e, p, m.bs)
    decreases e
  {
    assert FairHere(e, p, m.bs) && BackedHere(e, p, m);
    forall k | k in ActiveBy(e, p, m.bs.remains) && p + [k] in m.remains
      ensures m.remains[p + [k]] <==> RemainsBy(e.children[k], p + [k], m.bs)
    {
      ActiveInScope(root, m.bs, scope, p, e, m.bs.remains, k);
      BackedRemains(root, m, scope, p + [k], e.children[k]);
    }
  }

  /** Coherence: all cached answers in scope are the uncached answers under one fair way of
      breaking ties. */
  lemma {:induction false} Coherent(root: Entry, m: Memo, scope: iset<Path>, p: Path, q: Question)
    requires GoodFor(root, m, scope) && p in scope && At(root, p).Some? && p in CacheOf(m, q)
    ensures Fair(root, [], m.bs) && (CacheOf(m, q)[p] <==> AnswerBy(At(root, p).value, p, q, m.bs))
  {
    FairFrom(root, m.bs, [], root);
    match q
    case CanDeleteQ => BackedCan(root, m, scope, p, At(root, p).value);
    case ShouldDeleteQ => BackedShould(root, m, scope, p, At(root, p).value);
    case RemainsQ => BackedRemains(root, m, scope, p, At(root, p).value);
  }

  lemma {:induction false} RemainsByOneWay(e: Entry, at: Path, bs: Breaks)
    requires NoTies(e) && Fair(e, at, bs)
    ensures RemainsBy(e, at, bs) <==> RemainsToExist(e)
  {
    ActiveByOneWay(e, at, bs.remains);
    forall k | k in Active(e) ensures RemainsBy(e.children[k], at + [k], bs) <==> RemainsToExist(e.children[k]) {
      RemainsByOneWay(e.children[k], at + [k], bs);
    }
  }

  /** Without ties that answer is the one answer there is. */
  lemma {:induction false} AnswerOneWay(e: Entry, at: Path, bs: Breaks, p: Path, q: Question)
    requires NoTies(e) && Fair(e, at, bs) && ActiveAt(e, p).Some?
    ensures AnswerBy(ActiveAt(e, p).value, at + p, q, bs) <==> Answer(ActiveAt(e, p).value, q)
    decreases p
  {
    if p == [] {
      assert at + [] == at;
      CanDeleteByOneWay(e, at, bs);
      ShouldDeleteByOneWay(e, at, bs);
      RemainsByOneWay(e, at, bs);
    } else {
      assert at + p == at + [p[0]] + p[1..];
      AnswerOneWay(e.children[p[0]], at + [p[0]], bs, p[1..], q);
    }
  }

  // ---------------------------------------------------------------- one step of a question

  ghost predicate Kept(before: map<Path, bool>, after: map<Path, bool>, p: Path) {
    && (forall q | q in before :: q in after && after[q] == before[q])
    && (forall q: Path | q in after && !(p <= q) :: q in before)
  }

  ghost predicate SameApart(b: Break, b': Break, p: Path) {
    forall q: Path, ch | !(p <= q) :: b(q, ch) == b'(q, ch)
  }

  /** A question at p keeps what is cached; it caches, and breaks ties, at and below p only. */
  ghost predicate Step(m: Memo, m': Memo, p: Path) {
    && Kept(m.can, m'.can, p) && Kept(m.should, m'.should, p) && Kept(m.remains, m'.remains, p)
    && SameApart(m.bs.can, m'.bs.can, p) && SameApart(m.bs.should, m'.bs.should, p) && SameApart(m.bs.remains, m'.bs.remains, p)
    && SameApart(m.bs.now, m'.bs.now, p) && SameApart(m.bs.before, m'.bs.before, p) && m'.bs.update == m.bs.update
  }

  lemma PrefixOfChild(p: Path, k: string, q: Path)
    ensures p + [k] <= q ==> p <= q
  {
  }

  lemma {:induction false} KeptOfChild(c0: map<Path, bool>, c1: map<Path, bool>, c2: map<Path, bool>, p: Path, k: string)
    requires Kept(c0, c1, p) && Kept(c1, c2, p + [k])
    ensures Kept(c0, c2, p)
  {
    forall q: Path | q in c2 && !(p <= q) ensures q in c0 {
      PrefixOfChild(p, k, q);
    }
  }

  lemma {:induction false} SameOfChild(b0: Break, b1: Break, b2: Break, p: Path, k: string)
    requires SameApart(b0, b1, p) && SameApart(b1, b2, p + [k])
    ensures SameApart(b0, b2, p)
  {
    forall q: Path, ch | !(p <= q) ensures b0(q, ch) == b2(q, ch) {
      PrefixOfChild(p, k, q);
    }
  }

  lemma {:induction false} StepOn(m0: Memo, m1: Memo, m2: Memo, p: Path)
    requires Step(m0, m1, p) && Step(m1, m2, p)
    ensures Step(m0, m2, p)
  {
  }

  /** A question at a child is part of a question at its parent. */
  lemma {:induction false} StepOfChild(m0: Memo, m1: Memo, m2: Memo, p: Path, k: string)
    requires Step(m0, m1, p) && Step(m1, m2, p + [k])
    ensures Step(m0, m2, p)
  {
    KeptOfChild(m0.can, m1.can, m2.can, p, k);
    KeptOfChild(m0.should, m1.should, m2.should, p, k);
    KeptOfChild(m0.remains, m1.remains, m2.remains, p, k);
    SameOfChild(m0.bs.can, m1.bs.can, m2.bs.can, p, k);
    SameOfChild(m0.bs.should, m1.bs.should, m2.bs.should, p, k);
    SameOfChild(m0.bs.remains, m1.bs.remains, m2.bs.remains, p, k);
    SameOfChild(m0.bs.now, m1.bs.now, m2.bs.now, p, k);
    SameOfChild(m0.bs.before, m1.bs.before, m2.bs.before, p, k);
  }

  ghost predicate SameAt(m: Memo, m': Memo, p: Path) {
    && (p in m.can <==> p in m'.can) && (p in m.should <==> p in m'.should) && (p in m.remains <==> p in m'.remains)
    && forall ch :: m.bs.can(p, ch) == m'.bs.can(p, ch) && m.bs.should(p, ch) == m'.bs.should(p, ch) && m.bs.remains(p, ch) == m'.bs.remains(p, ch)
  }

  /** More caches elsewhere take no reason away. */
  lemma {:induction false} StaysBacked(e: Entry, at: Path, m: Memo, m': Memo, p: Path)
    requires BackedHere(e, at, m) && Step(m, m', p) && SameAt(m, m', at)
    ensures BackedHere(e, at, m')
  {
    assert ActiveBy(e, at, m.bs.can) == ActiveBy(e, at, m'.bs.can);
    assert ActiveBy(e, at, m.bs.should) == ActiveBy(e, at, m'.bs.should);
    assert ActiveBy(e, at, m.bs.remains) == ActiveBy(e, at, m'.bs.remains);
  }

  ghost function Put(b: Break, p: Path, pick: Pick): Break {
    (q: Path, ch: string) => if q == p && ch in pick then pick[ch] else b(q, ch)
  }

  lemma {:induction false} PutActive(e: Entry, p: Path, b: Break, pick: Pick)
    requires Picks(e, pick)
    ensures Admits(e, p, Put(b, p, pick), C.Now) && ActiveBy(e, p, Put(b, p, pick)) == ActiveWith(e, pick)
  {
  }

  ghost function WithCan(m: Memo, p: Path, pick: Pick, r: bool): Memo {
    m.(can := m.can[p := r], bs := m.bs.(can := Put(m.bs.can, p, pick)))
  }

  ghost function WithShould(m: Memo, p: Path, pick: Pick, r: bool): Memo {
    m.(should := m.should[p := r], bs := m.bs.(should := Put(m.bs.should, p, pick)))
  }

  ghost function WithRemains(m: Memo, p: Path, pick: Pick, r: bool): Memo {
    m.(remains := m.remains[p := r], bs := m.bs.(remains := Put(m.bs.remains, p, pick)))
  }

  ghost function With(m: Memo, q: Question, p: Path, pick: Pick, r: bool): Memo {
    match q
    case CanDeleteQ => WithCan(m, p, pick, r)
    case ShouldDeleteQ => WithShould(m, p, pick, r)
    case RemainsQ => WithRemains(m, p, pick, r)
  }

  lemma {:induction false} WithFair(root: Entry, m: Memo, q: Question, p: Path, e: Entry, pick: Pick, r: bool)
    requires FairAll(root, m.bs) && At(root, p) == Some(e) && Picks(e, pick)
    ensures FairAll(root, With(m, q, p, pick, r).bs)
  {
    var bs := With(m, q, p, pick, r).bs;
    forall x | At(root, x).Some? ensures FairHere(At(root, x).value, x, bs) {
      assert FairHere(At(root, x).value, x, m.bs);
    }
  }

  /** Caching one more answer. */
  lemma {:induction false} WithStep(m: Memo, q: Question, p: Path, pick: Pick, r: bool)
    requires p !in CacheOf(m, q)
    ensures Step(m, With(m, q, p, pick, r), p)
  {
  }

  lemma {:induction false} WithOthers(root: Entry, m: Memo, q: Question, p: Path, pick: Pick, r: bool, x: Path)
    requires p !in CacheOf(m, q) && x != p && At(root, x).Some? && BackedHere(At(root, x).value, x, m)
    ensures BackedHere(At(root, x).value, x, With(m, q, p, pick, r))
  {
    WithStep(m, q, p, pick, r);
    StaysBacked(At(root, x).value, x, m, With(m, q, p, pick, r), p);
  }

  /** An answer with its reason can be cached. */
  lemma {:induction false} WithGood(root: Entry, m: Memo, scope: iset<Path>, q: Question, p: Path, e: Entry, pick: Pick, r: bool)
    requires GoodFor(root, m, scope) && At(root, p) == Some(e) && Picks(e, pick) && p !in CacheOf(m, q)
    requires p in scope ==> BackedHere(e, p, With(m, q, p, pick, r))
    ensures GoodFor(root, With(m, q, p, pick, r), scope)
  {
    WithFair(root, m, q, p, e, pick, r);
    forall x | x in scope && At(root, x).Some? ensures BackedHere(At(root, x).value, x, With(m, q, p, pick, r)) {
      if x != p {
        WithOthers(root, m, q, p, pick, r, x);
      }
    }
  }

  /** All these children may go, and one of them has to exactly if `yes`. */
  ghost predicate VerdictSoFar(p: Path, done: set<string>, m: Memo, yes: bool) {
    && (forall k | k in done :: Says(m.can, p + [k], true))
    && if yes then exists k | k in done :: Says(m.should, p + [k], true) else forall k | k in done :: Says(m.should, p + [k], false)
  }

  ghost predicate OneVerdict(p: Path, m: Memo, already: bool, k: string, yes: bool) {
    (already ==> yes) && (!already ==> Says(m.should, p + [k], yes))
  }

  lemma {:induction false} VerdictStep(p: Path, done: set<string>, m: Memo, m': Memo, already: bool, k: string, yes: bool)
    requires VerdictSoFar(p, done, m, already) && Step(m, m', p) && Says(m'.can, p + [k], true) && OneVerdict(p, m', already, k, yes)
    ensures VerdictSoFar(p, done + {k}, m', yes)
  {
    if already {
      var x :| x in done && Says(m.should, p + [x], true);
      assert x in done + {k} && Says(m'.should, p + [x], true);
    } else if yes {
      assert k in done + {k} && Says(m'.should, p + [k], true);
    }
  }

  /** A cached answer does not lean on the cache of its own entry. */
  lemma {:induction false} ChildIsOther(p: Path, k: string)
    ensures p + [k] != p && !(p + [k] <= p)
  {
    assert |p + [k]| == |p| + 1;
  }

  lemma {:induction false} CanReason(e: Entry, p: Path, m: Memo, pick: Pick, r: bool)
    requires BackedHere(e, p, m) && Picks(e, pick) && p !in m.can
    requires CanFor(e, p, m, ActiveWith(e, pick), r)
    ensures BackedHere(e, p, WithCan(m, p, pick, r))
  {
    var m' := WithCan(m, p, pick, r);
    PutActive(e, p, m.bs.can, pick);
    forall k ensures p + [k] != p {
      ChildIsOther(p, k);
    }
    forall x: Path, v | Says(m.can, x, v) ensures Says(m'.can, x, v) {
    }
    assert CanBacked(e, p, m');
    assert ShouldBacked(e, p, m');
    assert RemainsBacked(e, p, m');
  }

  lemma {:induction false} ShouldReason(e: Entry, p: Path, m: Memo, pick: Pick, r: bool)
    requires BackedHere(e, p, m) && Picks(e, pick) && p !in m.should
    requires ShouldFor(e, p, m, ActiveWith(e, pick), r)
    ensures BackedHere(e, p, WithShould(m, p, pick, r))
  {
    var m' := WithShould(m, p, pick, r);
    PutActive(e, p, m.bs.should, pick);
    forall x: Path, v | Says(m.should, x, v) ensures Says(m'.should, x, v) {
    }
    assert CanBacked(e, p, m');
    assert ShouldBacked(e, p, m');
    assert RemainsBacked(e, p, m');
  }

  lemma {:induction false} RemainsReason(e: Entry, p: Path, m: Memo, pick: Pick, r: bool)
    requires BackedHere(e, p, m) && Picks(e, pick) && p !in m.remains
    requires RemainsFor(e, p, m, ActiveWith(e, pick), r)
    ensures BackedHere(e, p, WithRemains(m, p, pick, r))
  {
    var m' := WithRemains(m, p, pick, r);
    PutActive(e, p, m.bs.remains, pick);
    forall x: Path, v | Says(m.remains, x, v) ensures Says(m'.remains, x, v) {
    }
    assert CanBacked(e, p, m');
    assert ShouldBacked(e, p, m');
    assert RemainsBacked(e, p, m');
  }

  ghost predicate AllSaid(m: Memo, asked: seq<(Path, Question)>, answers: seq<bool>)
    requires |answers| <= |asked|
  {
    forall j | 0 <= j < |answers| :: Says(CacheOf(m, asked[j].1), asked[j].0, answers[j])
  }

  ghost predicate AllAnswered(root: Entry, bs: Breaks, asked: seq<(Path, Question)>, answers: seq<bool>)
    requires |answers| == |asked|
  {
    forall j | 0 <= j < |asked| ::
      At(root, asked[j].0).Some? && answers[j] == AnswerBy(At(root, asked[j].0).value, asked[j].0, asked[j].1, bs)
  }

  /** Answers given stay cached. */
  lemma {:induction false} OneMoreSaid(m: Memo, m': Memo, p: Path, asked: seq<(Path, Question)>, answers: seq<bool>, a: bool)
    requires Step(m, m', p) && |answers| < |asked| && AllSaid(m, asked, answers)
    requires Says(CacheOf(m', asked[|answers|].1), asked[|answers|].0, a)
    ensures AllSaid(m', asked, answers + [a])
  {
    forall j | 0 <= j < |answers| + 1 ensures Says(CacheOf(m', asked[j].1), asked[j].0, (answers + [a])[j]) {
      if j < |answers| {
        assert Says(CacheOf(m, asked[j].1), asked[j].0, answers[j]);
      }
    }
  }

  lemma {:induction false} AllCoherent(root: Entry, m: Memo, scope: iset<Path>, asked: seq<(Path, Question)>, answers: seq<bool>)
    requires GoodFor(root, m, scope) && |answers| == |asked| && AllSaid(m, asked, answers)
    requires forall j | 0 <= j < |asked| :: At(root, asked[j].0).Some? && asked[j].0 in scope
    ensures Fair(root, [], m.bs) && AllAnswered(root, m.bs, asked, answers)
  {
    FairFrom(root, m.bs, [], root);
    forall j | 0 <= j < |asked| ensures answers[j] == AnswerBy(At(root, asked[j].0).value, asked[j].0, asked[j].1, m.bs) {
      Coherent(root, m, scope, asked[j].0, asked[j].1);
    }
  }

  lemma {:induction false} AllOneWay(root: Entry, bs: Breaks, asked: seq<(Path, Question)>, answers: seq<bool>)
    requires NoTies(root) && Fair(root, [], bs) && |answers| == |asked| && AllAnswered(root, bs, asked, answers)
    ensures forall j | 0 <= j < |asked| && ActiveAt(root, asked[j].0).Some? :: answers[j] == Answer(At(root, asked[j].0).value, asked[j].1)
  {
    forall j | 0 <= j < |asked| && ActiveAt(root, asked[j].0).Some?
      ensures answers[j] == Answer(At(root, asked[j].0).value, asked[j].1)
    {
      AnswerOneWay(root, [], bs, asked[j].0, asked[j].1);
      assert [] + asked[j].0 == asked[j].0;
    }
  }

  // ---------------------------------------------------------------- the tree changes under the caches

  ghost function MendedPick(root: Entry, b: Break, p: Path, ch: string): Option<string> {
    if At(root, p).Some? && ch in At(root, p).value.choices && !C.IsBestCase(At(root, p).value.choices[ch], C.Now, b(p, ch))
    then C.Best(At(root, p).value.choices[ch], C.Now) else b(p, ch)
  }

  ghost function MendedPair(root: Entry, bs: Breaks, p: Path, ch: string): (Option<string>, Option<string>) {
    if At(root, p).Some? && ch in At(root, p).value.choices && !C.OnePass(At(root, p).value.choices[ch], bs.now(p, ch), bs.before(p, ch))
    then C.BestPair(At(root, p).value.choices[ch]) else (bs.now(p, ch), bs.before(p, ch))
  }

  /** Fair breaks that differ from the given ones only where those are not fair. */
  ghost function Mended(root: Entry, bs: Breaks): Breaks {
    Breaks((p: Path, ch: string) => MendedPick(root, bs.can, p, ch), (p: Path, ch: string) => MendedPick(root, bs.should, p, ch),
           (p: Path, ch: string) => MendedPick(root, bs.remains, p, ch),
           (p: Path, ch: string) => MendedPair(root, bs, p, ch).0, (p: Path, ch: string) => MendedPair(root, bs, p, ch).1,
           (p: Path, ch: string) => MendedPick(root, bs.update, p, ch))
  }

  lemma {:induction false} MendedIsFair(root: Entry, bs: Breaks)
    ensures FairAll(root, Mended(root, bs))
  {
    forall p | At(root, p).Some? ensures FairHere(At(root, p).value, p, Mended(root, bs)) {
    }
  }

  lemma {:induction false} MendedBacked(root: Entry, m: Memo, p: Path)
    requires At(root, p).Some? && FairHere(At(root, p).value, p, m.bs) && BackedHere(At(root, p).value, p, m)
    ensures BackedHere(At(root, p).value, p, m.(bs := Mended(root, m.bs)))
  {
    var e, bs := At(root, p).value, Mended(root, m.bs);
    assert ActiveBy(e, p, m.bs.can) == ActiveBy(e, p, bs.can);
    assert ActiveBy(e, p, m.bs.should) == ActiveBy(e, p, bs.should);
    assert ActiveBy(e, p, m.bs.remains) == ActiveBy(e, p, bs.remains);
  }

  lemma {:induction false} AtElsewhere(root: Entry, p: Path, n: Entry, q: Path)
    requires At(root, p).Some? && n.children == At(root, p).value.children && !(q <= p)
    ensures At(ReplaceAt(root, p, n), q) == At(root, q)
    decreases p
  {
    if p != [] && q[0] == p[0] {
      assert q == [q[0]] + q[1..] && p == [p[0]] + p[1..];
      AtElsewhere(root.children[p[0]], p[1..], n, q[1..]);
    }
  }

  /** Neither the entry nor one above it is in scope. */
  ghost predicate OutOfScope(p: Path, scope: iset<Path>) {
    forall q: Path | q <= p :: q !in scope
  }

  ghost predicate AboveOutOfScope(p: Path, scope: iset<Path>) {
    forall q: Path | q < p :: q !in scope
  }

  /** The entry whose choices are about to change leaves the scope. */
  lemma {:induction false} Leave(root: Entry, m: Memo, scope: iset<Path>, p: Path)
    requires GoodFor(root, m, scope) && AboveOutOfScope(p, scope)
    ensures GoodFor(root, m, scope - iset{p}) && OutOfScope(p, scope - iset{p})
  {
    forall q, k | q in scope - iset{p} && At(root, q).Some? && MayVisit(At(root, q).value, k) ensures q + [k] in scope - iset{p} {
      assert q + [k] == p ==> q < p;
    }
    forall q: Path | q <= p ensures q !in scope - iset{p} {
      assert q == p || q < p;
    }
  }

  lemma {:induction false} ReplaceGood(root: Entry, m: Memo, scope: iset<Path>, p: Path, n: Entry)
    requires GoodFor(root, m, scope) && OutOfScope(p, scope)
    requires At(root, p).Some? && n.children == At(root, p).value.children
    ensures GoodFor(ReplaceAt(root, p, n), m.(bs := Mended(ReplaceAt(root, p, n), m.bs)), scope)
  {
    var root' := ReplaceAt(root, p, n);
    MendedIsFair(root', m.bs);
    forall q | q in scope ensures At(root', q) == At(root, q) {
      AtElsewhere(root, p, n, q);
    }
    forall q | q in scope && At(root', q).Some? ensures BackedHere(At(root', q).value, q, m.(bs := Mended(root', m.bs))) {
      MendedBacked(root', m, q);
    }
  }

  ghost function Drop(m: Memo, p: Path): Memo {
    m.(can := m.can - {p}, should := m.should - {p}, remains := m.remains - {p})
  }

  lemma {:induction false} DropBacked(e: Entry, q: Path, m: Memo, p: Path)
    requires BackedHere(e, q, m) && q != p && forall k :: q + [k] != p
    ensures BackedHere(e, q, Drop(m, p))
  {
    var m' := Drop(m, p);
    forall x: Path, v | x != p ensures Says(m.can, x, v) ==> Says(m'.can, x, v) {
    }
    assert CanBacked(e, q, m') && ShouldBacked(e, q, m') && RemainsBacked(e, q, m');
  }

  /** With its caches reset the entry's scope is again that of its children. */
  lemma {:induction false} DropGood(root: Entry, m: Memo, scope: iset<Path>, p: Path)
    requires GoodFor(root, m, scope) && OutOfScope(p, scope)
    ensures GoodFor(root, Drop(m, p), scope)
  {
    forall q | q in scope && At(root, q).Some? ensures BackedHere(At(root, q).value, q, Drop(m, p)) {
      assert !(q <= p);
      DropBacked(At(root, q).value, q, m, p);
    }
  }

  lemma {:induction false} Enter(root: Entry, m: Memo, scope: iset<Path>, p: Path, e: Entry)
    requires GoodFor(root, m, scope) && At(root, p) == Some(e) && forall k | MayVisit(e, k) :: p + [k] in scope
    requires p !in m.can && p !in m.should && p !in m.remains
    ensures GoodFor(root, m, scope + iset{p})
  {
  }

  /** An entry whose choices are measured and whose children in `done` are finished. */
  ghost predicate Partly(e: Entry, f: Entry, done: set<string>) {
    && f == R.Populate(e).(children := f.children) && f.children.Keys == e.children.Keys
    && R.ChildrenFinish(e, f, done)
  }

  lemma {:induction false} PartlyStep(e: Entry, f: Entry, done: set<string>, k: string, c: Entry)
    requires Partly(e, f, done) && k in e.children && k !in done && R.MayFinish(e.children[k], c)
    ensures Partly(e, f.(children := f.children[k := c]), done + {k})
  {
  }

  /** The entries below p that are reached in a decisive way are in scope. */
  ghost predicate ReachedInScope(f: Entry, p: Path, scope: iset<Path>) {
    forall q | ActiveAt(f, q).Some? :: p + q in scope
  }

  ghost predicate ChildrenInScope(e: Entry, f: Entry, p: Path, done: set<string>, scope: iset<Path>)
    requires f.children.Keys == e.children.Keys
  {
    forall k | k in done && k in e.children && R.Decisive(e.children[k]) :: ReachedInScope(f.children[k], p + [k], scope)
  }

  ghost predicate ScopeKept(before: iset<Path>, after: iset<Path>, p: Path) {
    && (forall q: Path | !(p <= q) :: q in before <==> q in after)
    && ((forall q: Path | p <= q :: q in before) ==> forall q: Path | p <= q :: q in after)
  }

  /** As ScopeKept, with p itself left out of the scope. */
  ghost predicate ScopeBelow(before: iset<Path>, after: iset<Path>, p: Path) {
    && (forall q: Path | !(p <= q) :: q in before <==> q in after) && p !in after
    && ((forall q: Path | p < q :: q in before) ==> forall q: Path | p < q :: q in after)
  }

  lemma {:induction false} ScopeBelowOut(before: iset<Path>, after: iset<Path>, p: Path)
    requires ScopeBelow(before, after, p)
    ensures OutOfScope(p, before) ==> OutOfScope(p, after)
  {
    forall q: Path | q <= p && q in after ensures q in before {
      assert q == p || !(p <= q);
    }
  }

  lemma {:induction false} ScopeBelowStep(s0: iset<Path>, s1: iset<Path>, s2: iset<Path>, p: Path, k: string)
    requires ScopeBelow(s0, s1, p) && ScopeKept(s1, s2, p + [k])
    ensures ScopeBelow(s0, s2, p)
  {
    ChildIsOther(p, k);
    forall q: Path | !(p <= q) ensures q in s0 <==> q in s2 {
      PrefixOfChild(p, k, q);
    }
    if forall q: Path | p < q :: q in s0 {
      forall q: Path | p + [k] <= q ensures q in s1 {
        assert p < q;
      }
    }
  }

  /** If the scope was complete below p it still is, once the children are all in it. */
  lemma {:induction false} BelowKept(before: iset<Path>, after: iset<Path>, p: Path, f: Entry)
    requires ScopeBelow(before - iset{p}, after, p)
    ensures ScopeKept(before, if forall k | MayVisit(f, k) :: p + [k] in after then after + iset{p} else after, p)
  {
    if forall q: Path | p <= q :: q in before {
      forall q: Path | p < q ensures q in before - iset{p} {
        assert p <= q && q != p;
      }
      forall k ensures p + [k] in after {
        assert p < p + [k];
      }
      forall q: Path | p <= q ensures q in after + iset{p} {
        assert q == p || p < q;
      }
    }
  }

  lemma {:induction false} AboveChild(p: Path, k: string, scope: iset<Path>)
    requires OutOfScope(p, scope)
    ensures AboveOutOfScope(p + [k], scope)
  {
    forall q: Path | q < p + [k] ensures q !in scope {
      assert q <= p;
    }
  }

  lemma SiblingNotBelow(p: Path, k: string, k': string, q: Path)
    requires k != k'
    ensures !(p + [k] <= p + [k'] + q)
  {
    assert (p + [k])[|p|] == k && (p + [k'] + q)[|p|] == k';
  }

  lemma {:induction false} ChildrenStayInScope(e: Entry, f: Entry, p: Path, done: set<string>, k: string, c: Entry, before: iset<Path>, after: iset<Path>)
    requires f.children.Keys == e.children.Keys && k in e.children && k !in done && ChildrenInScope(e, f, p, done, before)
    requires ScopeKept(before, after, p + [k]) && (R.Decisive(e.children[k]) ==> ReachedInScope(c, p + [k], after))
    ensures ChildrenInScope(e, f.(children := f.children[k := c]), p, done + {k}, after)
  {
    forall x | x in done && x in e.children && R.Decisive(e.children[x]) ensures ReachedInScope(f.children[x], p + [x], after) {
      forall q | ActiveAt(f.children[x], q).Some? ensures p + [x] + q in after {
        SiblingNotBelow(p, k, x, q);
      }
    }
  }

  lemma {:induction false} ReachedFromChildren(e: Entry, f: Entry, p: Path, pick: Pick, scope: iset<Path>)
    requires R.Decisive(e) && Picks(R.Populate(e), pick) && Partly(e, f, ActiveWith(R.Populate(e), pick))
    requires ChildrenInScope(e, f, p, ActiveWith(R.Populate(e), pick), scope)
    ensures forall k | MayVisit(f, k) :: p + [k] in scope
    ensures ReachedInScope(f, p, scope + iset{p})
  {
    OnePick(R.Populate(e), pick);
    assert f.choices == R.Populate(e).choices && Active(f) == Active(R.Populate(e));
    forall k | MayVisit(f, k) ensures p + [k] in scope {
      OneWay(f, k);
      assert ActiveAt(f.children[k], []).Some?;
      assert p + [k] + [] == p + [k];
    }
    forall q | ActiveAt(f, q).Some? ensures p + q in scope + iset{p} {
      if q == [] {
        assert p + q == p;
      } else {
        assert p + q == p + [q[0]] + q[1..];
      }
    }
  }

  ghost const EVERYWHERE := iset p: Path | true

  class CachedTree {
    var root: Entry
    var can: map<Path, bool>
    var should: map<Path, bool>
    var remains: map<Path, bool>
    ghost var bs: Breaks
    ghost var scope: iset<Path>

    ghost function Memory(): Memo
      reads this
    {
      Memo(can, should, remains, bs)
    }

    /** The caches of the entries in scope can be relied on. */
    ghost predicate Good()
      reads this
    {
      GoodFor(root, Memory(), scope)
    }

    constructor (e: Entry)
      ensures root == e && can == map[] && should == map[] && remains == map[]
      ensures Good() && scope == EVERYWHERE
    {
      root, can, should, remains, scope := e, map[], map[], map[], EVERYWHERE;
      bs := Mended(e, V.Nothing());
      new;
      MendedIsFair(e, V.Nothing());
    }

    method CanDeleteAt(p: Path, e: Entry) returns (r: bool)
      requires At(root, p) == Some(e)
      modifies `can, `bs
      ensures Step(old(Memory()), Memory(), p)
      ensures old(Good()) ==> Good()
      ensures old(Good()) && p in scope ==> Says(can, p, r)
      decreases e, 2
    {
      if p in can {
        return can[p];
      }
      ghost var pick;
      if L.CanDelete(e.les) {
        r, pick := ChildrenCanDelete(p, e);
      } else {
        r, pick := false, BestPick(e);
      }
      StoreCan(p, e, pick, r, old(Memory()), old(Good()));
    }

    /** CanDelete's loop: it stops at the first active child that has to stay. */
    method ChildrenCanDelete(p: Path, e: Entry) returns (r: bool, ghost pick: Pick)
      requires At(root, p) == Some(e) && p !in can && L.CanDelete(e.les)
      modifies `can, `bs
      ensures Step(old(Memory()), Memory(), p) && p !in can && Picks(e, pick)
      ensures old(Good()) ==> Good()
      ensures old(Good()) && p in scope ==> CanFor(e, p, Memory(), ActiveWith(e, pick), r)
      decreases e, 1
    {
      var todo;
      todo, pick := ActiveNames(e);
      ghost var good := Good();
      r := true;
      while todo != {} && r
        invariant todo <= ActiveWith(e, pick) && p !in can
        invariant Step(old(Memory()), Memory(), p)
        invariant good ==> Good()
        invariant good && p in scope ==>
                    if r then forall k | k in ActiveWith(e, pick) - todo :: Says(can, p + [k], true)
                    else exists k | k in ActiveWith(e, pick) :: Says(can, p + [k], false)
        decreases todo
      {
        var k :| k in todo;
        ghost var before := Memory();
        r := CanDeleteChild(p, e, k);
        StepOn(old(Memory()), before, Memory(), p);
        todo := todo - {k};
      }
    }

    method CanDeleteChild(p: Path, e: Entry, k: string) returns (r: bool)
      requires At(root, p) == Some(e) && k in e.children
      modifies `can, `bs
      ensures Step(old(Memory()), Memory(), p) && (p in can <==> p in old(can))
      ensures old(Good()) ==> Good()
      ensures old(Good()) && p in scope && MayVisit(e, k) ==> Says(can, p + [k], r)
      decreases e, 0
    {
      AtChild(root, p, k);
      ChildIsOther(p, k);
      r := CanDeleteAt(p + [k], e.children[k]);
      StepOfChild(old(Memory()), old(Memory()), Memory(), p, k);
    }

    /** Sets the cache of an answer that has its reason. */
    method StoreCan(p: Path, e: Entry, ghost pick: Pick, r: bool, ghost start: Memo, ghost good: bool)
      requires At(root, p) == Some(e) && p !in can && Picks(e, pick) && Step(start, Memory(), p)
      requires good ==> Good() && (p in scope ==> CanFor(e, p, Memory(), ActiveWith(e, pick), r))
      modifies `can, `bs
      ensures Step(start, Memory(), p) && Says(can, p, r)
      ensures good ==> Good()
    {
      ghost var m := Memory();
      WithStep(m, CanDeleteQ, p, pick, r);
      StepOn(start, m, WithCan(m, p, pick, r), p);
      if good {
        if p in scope {
          CanReason(e, p, m, pick, r);
        }
        WithGood(root, m, scope, CanDeleteQ, p, e, pick, r);
      }
      can := can[p := r];
      bs := bs.(can := Put(bs.can, p, pick));
      assert Memory() == WithCan(m, p, pick, r);
    }

    method ShouldDeleteAt(p: Path, e: Entry) returns (r: bool)
      requires At(root, p) == Some(e)
      modifies `can, `should, `bs
      ensures Step(old(Memory()), Memory(), p)
      ensures old(Good()) ==> Good()
      ensures old(Good()) && p in scope ==> Says(should, p, r)
      decreases e, 5
    {
      if p in should {
        return should[p];
      }
      ghost var pick;
      r, pick := DecideShould(p, e);
      StoreShould(p, e, pick, r, old(Memory()), old(Good()));
    }

    method DecideShould(p: Path, e: Entry) returns (r: bool, ghost pick: Pick)
      requires At(root, p) == Some(e) && p !in should
      modifies `can, `should, `bs
      ensures Step(old(Memory()), Memory(), p) && p !in should && Picks(e, pick)
      ensures old(Good()) ==> Good()
      ensures old(Good()) && p in scope ==> ShouldFor(e, p, Memory(), ActiveWith(e, pick), r)
      decreases e, 4
    {
      var names;
      names, pick := ActiveNames(e);
      var canDelete, shouldDelete := e.choices != map[], e.choices != map[];
      if names != {} {
        canDelete, shouldDelete := ChildrenVerdict(p, e, names, pick);
      }
      r := L.ShouldDelete(e.les) || (canDelete && shouldDelete && L.CanDelete(e.les));
    }

    /** ShouldDelete's loop: it stops at the first child that has to stay. */
    method ChildrenVerdict(p: Path, e: Entry, names: set<string>, ghost pick: Pick) returns (canDelete: bool, shouldDelete: bool)
      requires At(root, p) == Some(e) && p !in should && names != {}
      requires Picks(e, pick) && names == ActiveWith(e, pick) && forall k | k in names :: MayVisit(e, k)
      modifies `can, `should, `bs
      ensures Step(old(Memory()), Memory(), p) && p !in should
      ensures old(Good()) ==> Good()
      ensures old(Good()) && p in scope ==>
                if canDelete then VerdictSoFar(p, names, Memory(), shouldDelete) else exists k | k in names :: Says(can, p + [k], false)
      decreases e, 3
    {
      canDelete, shouldDelete := true, false;
      ghost var good := Good();
      var todo := names;
      while todo != {} && canDelete
        invariant todo <= names && p !in should
        invariant Step(old(Memory()), Memory(), p)
        invariant good ==> Good()
        invariant good && p in scope ==>
                    if canDelete then VerdictSoFar(p, names - todo, Memory(), shouldDelete) else exists k | k in names :: Says(can, p + [k], false)
        decreases todo
      {
        var k :| k in todo;
        ghost var before, done, already := Memory(), names - todo, shouldDelete;
        canDelete, shouldDelete := ChildVerdict(p, e, k, shouldDelete);
        StepOn(old(Memory()), before, Memory(), p);
        todo := todo - {k};
        assert names - todo == done + {k};
        if good && p in scope && canDelete {
          VerdictStep(p, done, before, Memory(), already, k, shouldDelete);
        }
      }
      assert names - {} == names;
    }

    /** One round of ShouldDelete's loop: may the child go, and does something now have to? */
    method ChildVerdict(p: Path, e: Entry, k: string, already: bool) returns (canDelete: bool, shouldDelete: bool)
      requires At(root, p) == Some(e) && k in e.children
      modifies `can, `should, `bs
      ensures Step(old(Memory()), Memory(), p) && (p in should <==> p in old(should))
      ensures old(Good()) ==> Good()
      ensures old(Good()) && p in scope && MayVisit(e, k) ==>
                Says(can, p + [k], canDelete) && (canDelete ==> OneVerdict(p, Memory(), already, k, shouldDelete))
      decreases e, 2
    {
      shouldDelete := already;
      canDelete := CanDeleteChild(p, e, k);
      if canDelete && !shouldDelete {
        AtChild(root, p, k);
        ChildIsOther(p, k);
        ghost var before := Memory();
        shouldDelete := ShouldDeleteAt(p + [k], e.children[k]);
        StepOfChild(old(Memory()), before, Memory(), p, k);
      }
    }

    method StoreShould(p: Path, e: Entry, ghost pick: Pick, r: bool, ghost start: Memo, ghost good: bool)
      requires At(root, p) == Some(e) && p !in should && Picks(e, pick) && Step(start, Memory(), p)
      requires good ==> Good() && (p in scope ==> ShouldFor(e, p, Memory(), ActiveWith(e, pick), r))
      modifies `should, `bs
      ensures Step(start, Memory(), p) && Says(should, p, r)
      ensures good ==> Good()
    {
      ghost var m := Memory();
      WithStep(m, ShouldDeleteQ, p, pick, r);
      StepOn(start, m, WithShould(m, p, pick, r), p);
      if good {
        if p in scope {
          ShouldReason(e, p, m, pick, r);
        }
        WithGood(root, m, scope, ShouldDeleteQ, p, e, pick, r);
      }
      should := should[p := r];
      bs := bs.(should := Put(bs.should, p, pick));
      assert Memory() == WithShould(m, p, pick, r);
    }

    method RemainsAt(p: Path, e: Entry) returns (r: bool)
      requires At(root, p) == Some(e)
      modifies `remains, `bs
      ensures Step(old(Memory()), Memory(), p)
      ensures old(Good()) ==> Good()
      ensures old(Good()) && p in scope ==> Says(remains, p, r)
      decreases e, 2
    {
      if p in remains {
        return remains[p];
      }
      ghost var pick;
      r, pick := DecideRemains(p, e);
      StoreRemains(p, e, pick, r, old(Memory()), old(Good()));
    }

    method DecideRemains(p: Path, e: Entry) returns (r: bool, ghost pick: Pick)
      requires At(root, p) == Some(e) && p !in remains
      modifies `remains, `bs
      ensures Step(old(Memory()), Memory(), p) && p !in remains && Picks(e, pick)
      ensures old(Good()) ==> Good()
      ensures old(Good()) && p in scope ==> RemainsFor(e, p, Memory(), ActiveWith(e, pick), r)
      decreases e, 1
    {
      var childsRemain, todo := false, {};
      todo, pick := ActiveNames(e);
      ghost var good := Good();
      while todo != {} && !childsRemain
        invariant todo <= ActiveWith(e, pick) && p !in remains
        invariant Step(old(Memory()), Memory(), p)
        invariant good ==> Good()
        invariant good && p in scope ==>
                    if childsRemain then exists k | k in ActiveWith(e, pick) :: Says(remains, p + [k], true)
                    else forall k | k in ActiveWith(e, pick) - todo :: Says(remains, p + [k], false)
        decreases todo
      {
        var k :| k in todo;
        ghost var before := Memory();
        childsRemain := RemainsChild(p, e, k);
        StepOn(old(Memory()), before, Memory(), p);
        todo := todo - {k};
      }
      r := L.RemainsToExist(e.les) || childsRemain;
    }

    method RemainsChild(p: Path, e: Entry, k: string) returns (r: bool)
      requires At(root, p) == Some(e) && k in e.children
      modifies `remains, `bs
      ensures Step(old(Memory()), Memory(), p) && (p in remains <==> p in old(remains))
      ensures old(Good()) ==> Good()
      ensures old(Good()) && p in scope && MayVisit(e, k) ==> Says(remains, p + [k], r)
      decreases e, 0
    {
      AtChild(root, p, k);
      ChildIsOther(p, k);
      r := RemainsAt(p + [k], e.children[k]);
      StepOfChild(old(Memory()), old(Memory()), Memory(), p, k);
    }

    method StoreRemains(p: Path, e: Entry, ghost pick: Pick, r: bool, ghost start: Memo, ghost good: bool)
      requires At(root, p) == Some(e) && p !in remains && Picks(e, pick) && Step(start, Memory(), p)
      requires good ==> Good() && (p in scope ==> RemainsFor(e, p, Memory(), ActiveWith(e, pick), r))
      modifies `remains, `bs
      ensures Step(start, Memory(), p) && Says(remains, p, r)
      ensures good ==> Good()
    {
      ghost var m := Memory();
      WithStep(m, RemainsQ, p, pick, r);
      StepOn(start, m, WithRemains(m, p, pick, r), p);
      if good {
        if p in scope {
          RemainsReason(e, p, m, pick, r);
        }
        WithGood(root, m, scope, RemainsQ, p, e, pick, r);
      }
      remains := remains[p := r];
      bs := bs.(remains := Put(bs.remains, p, pick));
      assert Memory() == WithRemains(m, p, pick, r);
    }

    // -------------------------------------------------------------- the end of the insertion phase

    /** Measures the choices of one entry. On the way it asks every element's branch whether it
        can be deleted, which fills caches below with answers from unresolved choices. */
    method PopulateAt(p: Path, e: Entry) returns (e': Entry)
      requires At(root, p) == Some(e)
      modifies `can, `bs
      ensures e' == R.Populate(e)
      ensures old(Good()) ==> Good()
    {
      if e.schema.None? {
        return e;
      }
      var choices := e.choices;
      var todo := e.choices.Keys;
      while todo != {}
        invariant todo <= e.choices.Keys == choices.Keys
        invariant forall ch | ch in todo :: choices[ch] == e.choices[ch]
        invariant forall ch | ch in e.choices.Keys - todo :: choices[ch] == R.PopulatedResolver(e, e.choices[ch])
        invariant old(Good()) ==> Good()
        decreases todo
      {
        var ch :| ch in todo;
        var prio := MeasureAt(p, e, e.choices[ch].caseOf.Keys);
        choices := choices[ch := e.choices[ch].(prio := prio)];
        assert prio == (map el | el in e.choices[ch].caseOf :: R.Measured(e, el));
        todo := todo - {ch};
      }
      e' := e.(choices := choices);
      assert choices == (map ch | ch in e.choices :: R.PopulatedResolver(e, e.choices[ch]));
    }

    method MeasureAt(p: Path, e: Entry, els: set<string>) returns (prio: map<string, C.ElemPrio>)
      requires At(root, p) == Some(e)
      modifies `can, `bs
      ensures prio == map el | el in els :: R.Measured(e, el)
      ensures old(Good()) ==> Good()
    {
      prio := map[];
      var todo := els;
      while todo != {}
        invariant todo <= els
        invariant prio == map el | el in els - todo :: R.Measured(e, el)
        invariant old(Good()) ==> Good()
        decreases todo
      {
        var el :| el in todo;
        var now, before := MAX_PRIO, MAX_PRIO;
        if el in e.children {
          AtChild(root, p, el);
          var _ := CanDeleteAt(p + [el], e.children[el]);
          now := R.BranchPrecedence(e.children[el], C.Now);
          before := R.BranchPrecedence(e.children[el], C.Before);
        }
        assert C.ElemPrio(now, before) == R.Measured(e, el);
        prio := prio[el := C.ElemPrio(now, before)];
        todo := todo - {el};
      }
      assert els - {} == els;
    }

    /** Resolves choices top down along the active children and resets the caches it passes. Ties
        may lead it into any of the tied cases. */
    method FinishAt(p: Path, e: Entry) returns (ghost f: Entry)
      requires At(root, p) == Some(e)
      modifies this
      ensures R.MayFinish(e, f) && root == ReplaceAt(old(root), p, f)
      ensures old(Good()) && AboveOutOfScope(p, old(scope)) ==> Good()
      ensures ScopeKept(old(scope), scope, p)
      ensures R.Decisive(e) ==> ReachedInScope(f, p, scope)
      decreases e, 3
    {
      ghost var good := Good() && AboveOutOfScope(p, scope);
      if good {
        Leave(root, Memory(), scope, p);
      }
      scope := scope - iset{p};
      ghost var pick;
      f, pick := FinishBelow(p, e);
      AtReplaced(old(root), p, f);
      BelowKept(old(scope), scope, p, f);
      if R.Decisive(e) {
        ReachedFromChildren(e, f, p, pick, scope);
      }
      Reset(p, f);
    }

    /** Measures the choices of an entry that is out of scope, and finishes its active children. */
    method FinishBelow(p: Path, e: Entry) returns (ghost f: Entry, ghost pick: Pick)
      requires At(root, p) == Some(e) && p !in scope
      modifies this
      ensures Picks(R.Populate(e), pick) && Partly(e, f, ActiveWith(R.Populate(e), pick))
      ensures root == ReplaceAt(old(root), p, f)
      ensures old(Good()) && OutOfScope(p, old(scope)) ==> Good() && OutOfScope(p, scope)
      ensures ScopeBelow(old(scope), scope, p)
      ensures ChildrenInScope(e, f, p, ActiveWith(R.Populate(e), pick), scope)
      decreases e, 2
    {
      ghost var good := Good() && OutOfScope(p, scope);
      MeasureHere(p, e);
      var todo;
      todo, pick := ActiveNames(At(root, p).value);
      f := FinishChilds(p, e, old(root), todo, good);
    }

    /** Replaces the entry by one whose choices are measured. */
    method MeasureHere(p: Path, e: Entry)
      requires At(root, p) == Some(e)
      modifies `root, `can, `bs
      ensures root == ReplaceAt(old(root), p, R.Populate(e)) && At(root, p) == Some(R.Populate(e))
      ensures old(Good()) && OutOfScope(p, scope) ==> Good()
    {
      ghost var good := Good() && OutOfScope(p, scope);
      var e' := PopulateAt(p, e);
      if good {
        ReplaceGood(root, Memory(), scope, p, e');
      }
      AtReplaced(root, p, e');
      root := ReplaceAt(root, p, e');
      bs := Mended(root, bs);
    }

    method FinishChilds(p: Path, e: Entry, ghost root0: Entry, names: set<string>, ghost good: bool) returns (ghost f: Entry)
      requires At(root0, p).Some? && root == ReplaceAt(root0, p, R.Populate(e)) && p !in scope && names <= e.children.Keys
      requires good ==> Good() && OutOfScope(p, scope)
      modifies this
      ensures Partly(e, f, names) && root == ReplaceAt(root0, p, f)
      ensures good ==> Good() && OutOfScope(p, scope)
      ensures ScopeBelow(old(scope), scope, p)
      ensures ChildrenInScope(e, f, p, names, scope)
      decreases e, 1
    {
      f := R.Populate(e);
      var todo := names;
      assert names - todo == {};
      while todo != {}
        invariant todo <= names && Partly(e, f, names - todo) && root == ReplaceAt(root0, p, f)
        invariant good ==> Good()
        invariant ScopeBelow(old(scope), scope, p)
        invariant ChildrenInScope(e, f, p, names - todo, scope)
        decreases todo
      {
        var k :| k in todo;
        ghost var before, done := scope, names - todo;
        ScopeBelowOut(old(scope), scope, p);
        f := FinishChild(p, e, k, root0, f, done);
        ScopeBelowStep(old(scope), before, scope, p, k);
        todo := todo - {k};
        assert names - todo == done + {k};
      }
      assert names - {} == names;
      ScopeBelowOut(old(scope), scope, p);
    }

    /** One active child further. */
    method FinishChild(p: Path, e: Entry, k: string, ghost root0: Entry, ghost f: Entry, ghost done: set<string>) returns (ghost f': Entry)
      requires At(root0, p).Some? && root == ReplaceAt(root0, p, f) && Partly(e, f, done) && k in e.children && k !in done
      requires ChildrenInScope(e, f, p, done, scope)
      modifies this
      ensures Partly(e, f', done + {k}) && root == ReplaceAt(root0, p, f')
      ensures old(Good()) && OutOfScope(p, old(scope)) ==> Good()
      ensures ScopeKept(old(scope), scope, p + [k])
      ensures ChildrenInScope(e, f', p, done + {k}, scope)
      decreases e, 0
    {
      AtReplaced(root0, p, f);
      AtChild(root, p, k);
      if OutOfScope(p, scope) {
        AboveChild(p, k, scope);
      }
      ghost var c := FinishAt(p + [k], e.children[k]);
      ReplaceInside(root0, p, f, k, c);
      PartlyStep(e, f, done, k, c);
      f' := f.(children := f.children[k := c]);
      ChildrenStayInScope(e, f, p, done, k, c, old(scope), scope);
    }

    /** Resets the caches of a finished entry. */
    method Reset(p: Path, ghost f: Entry)
      requires At(root, p) == Some(f)
      modifies `can, `should, `remains, `scope
      ensures old(Good()) && OutOfScope(p, old(scope)) ==> Good()
      ensures scope == if forall k | MayVisit(f, k) :: p + [k] in old(scope) then old(scope) + iset{p} else old(scope)
    {
      ghost var good := Good() && OutOfScope(p, scope);
      if good {
        DropGood(root, Memory(), scope, p);
      }
      can, should, remains := can - {p}, should - {p}, remains - {p};
      if forall k | MayVisit(f, k) :: p + [k] in scope {
        if good {
          Enter(root, Memory(), scope, p, f);
        }
        scope := scope + iset{p};
      }
    }

    // -------------------------------------------------------------- cache coherence

    /** Finishing the root leaves caches to rely on: everywhere if that was so before, and if the
        numbers are decisive on the active part of the tree, whatever the caches held before. */
    method Finish()
      modifies this
      ensures R.MayFinish(old(root), root) && Good()
      ensures old(Good()) && old(scope) == EVERYWHERE ==> scope == EVERYWHERE
      ensures old(R.Decisive(root)) ==> NoTies(root) && forall p | ActiveAt(root, p).Some? :: p in scope
    {
      if !Good() {
        scope, bs := iset{}, Mended(root, bs);
        MendedIsFair(root, old(bs));
      }
      ghost var f := FinishAt([], root);
      if R.Decisive(old(root)) {
        R.DecisiveFinishes(old(root), f, f);
        forall p | ActiveAt(root, p).Some? ensures p in scope {
          assert [] + p == p;
        }
      }
    }

    /** Any sequence of questions to entries in scope gets the uncached answers under one fair way
        of breaking ties; without ties, to actively reachable entries, the one answer there is. */
    method Ask(questions: seq<(Path, Question)>) returns (answers: seq<bool>)
      requires Good() && forall i | 0 <= i < |questions| :: At(root, questions[i].0).Some? && questions[i].0 in scope
      modifies `can, `should, `remains, `bs
      ensures Good() && Fair(root, [], bs) && |answers| == |questions|
      ensures AllAnswered(root, bs, questions, answers)
      ensures NoTies(root) ==> forall i | 0 <= i < |questions| && ActiveAt(root, questions[i].0).Some? ::
                answers[i] == Answer(At(root, questions[i].0).value, questions[i].1)
    {
      answers := [];
      while |answers| < |questions|
        invariant |answers| <= |questions| && Good() && AllSaid(Memory(), questions, answers)
        decreases |questions| - |answers|
      {
        var (p, q) := questions[|answers|];
        ghost var before := Memory();
        var a := AskOne(p, q);
        OneMoreSaid(before, Memory(), p, questions, answers, a);
        answers := answers + [a];
      }
      AllCoherent(root, Memory(), scope, questions, answers);
      if NoTies(root) {
        AllOneWay(root, bs, questions, answers);
      }
    }

    method AskOne(p: Path, q: Question) returns (a: bool)
      requires Good() && At(root, p).Some? && p in scope
      modifies `can, `should, `remains, `bs
      ensures Good() && Step(old(Memory()), Memory(), p) && Says(CacheOf(Memory(), q), p, a)
    {
      var e := At(root, p).value;
      match q {
        case CanDeleteQ => a := CanDeleteAt(p, e);
        case ShouldDeleteQ => a := ShouldDeleteAt(p, e);
        case RemainsQ => a := RemainsAt(p, e);
      }
    }
  }
}
