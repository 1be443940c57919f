/** The walks that collect deletes and updates with the memoised decisions
    (pkg/tree/ops/getdeletes.go, pkg/tree/ops/gethighestprecedence.go), every look-up breaking ties
    its own way. */
module Walks {
  import opened Base
  import opened Tree
  import opened Southbound
  import opened Lookups
  import opened Ties
  import opened Caching
  import V = Verdicts
  import F = ConflictFree
  import C = Choices
  import L = Leaves
  import P = Precedence

  // ---------------------------------------------------------------- whether an entry goes as a whole

  /** The reason, in the caches, for deleting the entry at p as a whole or not. */
  ghost predicate WholeFor(e: Entry, p: Path, pl: Place, aggregate: bool, m: Memo, r: bool) {
    if aggregate && IsListElement(e, pl) then KeysFor(e, p, pl.keys, m, r)
    else p in m.should && r == (m.should[p] && !pl.root && Keys(e) == [])
  }

  ghost predicate KeysFor(e: Entry, p: Path, keys: seq<string>, m: Memo, r: bool) {
    if r then forall n | n in keys && n in e.children :: Says(m.should, p + [n], true)
    else exists n | n in keys && n in e.children :: Says(m.should, p + [n], false)
  }

  lemma {:induction false} KeysMean(root: Entry, m: Memo, scope: iset<Path>, p: Path, e: Entry, keys: seq<string>, r: bool)
    requires GoodFor(root, m, scope) && p in scope && At(root, p) == Some(e) && e.schema.None? && KeysFor(e, p, keys, m, r)
    ensures r == KeysGoAwayBy(e, p, keys, m.bs)
  {
    forall n | n in e.children && p + [n] in m.should ensures m.should[p + [n]] <==> ShouldDeleteBy(e.children[n], p + [n], m.bs) {
      AtChild(root, p, n);
      assert MayVisit(e, n);
      BackedShould(root, m, scope, p + [n], e.children[n]);
    }
  }

  lemma {:induction false} WholeMeans(root: Entry, m: Memo, scope: iset<Path>, p: Path, e: Entry, pl: Place, aggregate: bool, r: bool)
    requires GoodFor(root, m, scope) && p in scope && At(root, p) == Some(e) && WholeFor(e, p, pl, aggregate, m, r)
    ensures r == DeletedWholeBy(e, p, pl, aggregate, m.bs)
  {
    if aggregate && IsListElement(e, pl) {
      KeysMean(root, m, scope, p, e, pl.keys, r);
    } else {
      BackedShould(root, m, scope, p, e);
    }
  }

  /** What was cached before stays the reason. */
  lemma {:induction false} WholeStays(e: Entry, p: Path, pl: Place, aggregate: bool, m: Memo, m': Memo, r: bool)
    requires WholeFor(e, p, pl, aggregate, m, r) && Step(m, m', p)
    ensures WholeFor(e, p, pl, aggregate, m', r)
  {
    forall x: Path, v | Says(m.should, x, v) ensures Says(m'.should, x, v) {
    }
  }

  method AskDeletedWhole(t: CachedTree, p: Path, e: Entry, pl: Place, aggregate: bool) returns (r: bool)
    requires At(t.root, p) == Some(e)
    modifies t`can, t`should, t`bs
    ensures Step(old(t.Memory()), t.Memory(), p)
    ensures old(t.Good()) ==> t.Good()
    ensures old(t.Good()) && p in t.scope ==> WholeFor(e, p, pl, aggregate, t.Memory(), r)
  {
    if aggregate && IsListElement(e, pl) {
      r := AskKeys(t, p, e, pl.keys);
    } else {
      r := t.ShouldDeleteAt(p, e);
      r := r && !pl.root && Keys(e) == [];
    }
  }

  /** Asks the key leaves of a list element, one after the other, up to the first that stays. */
  method AskKeys(t: CachedTree, p: Path, e: Entry, keys: seq<string>) returns (r: bool)
    requires At(t.root, p) == Some(e) && e.schema.None?
    modifies t`can, t`should, t`bs
    ensures Step(old(t.Memory()), t.Memory(), p)
    ensures old(t.Good()) ==> t.Good()
    ensures old(t.Good()) && p in t.scope ==> KeysFor(e, p, keys, t.Memory(), r)
  {
    var i := 0;
    r := true;
    ghost var good := t.Good();
    while r && i < |keys|
      invariant 0 <= i <= |keys|
      invariant Step(old(t.Memory()), t.Memory(), p)
      invariant good ==> t.Good()
      invariant good && p in t.scope ==> KeysFor(e, p, keys[..i], t.Memory(), r)
    {
      ghost var before := t.Memory();
      r := AskKeyLeaf(t, p, e, keys[i]);
      StepOn(old(t.Memory()), before, t.Memory(), p);
      i := i + 1;
      assert keys[..i] == keys[..i - 1] + [keys[i - 1]];
    }
    if i == |keys| {
      assert keys[..i] == keys;
    }
  }

  /** A key leaf that does not exist does not object. */
  method AskKeyLeaf(t: CachedTree, p: Path, e: Entry, n: string) returns (r: bool)
    requires At(t.root, p) == Some(e) && e.schema.None?
    modifies t`can, t`should, t`bs
    ensures Step(old(t.Memory()), t.Memory(), p)
    ensures old(t.Good()) ==> t.Good()
    ensures if n !in e.children then r else old(t.Good()) && p in t.scope ==> Says(t.should, p + [n], r)
  {
    r := true;
    if n in e.children {
      AtChild(t.root, p, n);
      assert MayVisit(e, n);
      r := t.ShouldDeleteAt(p + [n], e.children[n]);
      StepOfChild(old(t.Memory()), old(t.Memory()), t.Memory(), p, n);
    }
  }

  // ---------------------------------------------------------------- paths collected

  /** The path was collected from index n on. */
  ghost predicate Emitted(out: seq<Path>, n: nat, x: Path) {
    exists i | n <= i < |out| :: out[i] == x
  }

  predicate AllBelow(out: seq<Path>, n: nat, p: Path) {
    forall i | n <= i < |out| :: p <= out[i]
  }

  /** Every entry on the way from p down d is in scope. */
  ghost predicate InScope(p: Path, d: Path, scope: iset<Path>) {
    forall q: Path | q <= d :: p + q in scope
  }

  /** From n on, the paths in scope below p are exactly those the walk for deletes emits. */
  ghost predicate CollectedAs(out: seq<Path>, n: nat, p: Path, e: Entry, pl: Place, aggregate: bool, bs: Breaks, scope: iset<Path>) {
    forall d | InScope(p, d, scope) :: Emitted(out, n, p + d) <==> EmitsDelete(e, p, pl, aggregate, bs, d)
  }

  /** What is emitted at an entry that does not go as a whole, once the children in `done` are walked. */
  ghost predicate EmitsSoFar(e: Entry, p: Path, pl: Place, aggregate: bool, bs: Breaks, done: set<string>, d: Path) {
    && d != []
    && (|| (|d| == 1 && !(aggregate && IsListElement(e, pl)) && ChoiceDeletesBy(e, p, bs, d[0]))
        || (d[0] in e.children && d[0] in done && EmitsDelete(e.children[d[0]], p + [d[0]], Below(e, pl), aggregate, bs, d[1..])))
  }

  ghost predicate CollectedSoFar(out: seq<Path>, n: nat, p: Path, e: Entry, pl: Place, aggregate: bool, bs: Breaks, scope: iset<Path>, done: set<string>) {
    forall d | InScope(p, d, scope) :: Emitted(out, n, p + d) <==> EmitsSoFar(e, p, pl, aggregate, bs, done, d)
  }

  lemma {:induction false} KeysAgree(e: Entry, at: Path, keys: seq<string>, bs: Breaks, bs': Breaks)
    requires V.AgreeFrom(at, bs, bs')
    ensures KeysGoAwayBy(e, at, keys, bs) <==> KeysGoAwayBy(e, at, keys, bs')
  {
    forall n | n in e.children ensures ShouldDeleteBy(e.children[n], at + [n], bs) <==> ShouldDeleteBy(e.children[n], at + [n], bs') {
      V.AgreeBelow(at, bs, bs', n);
      V.ShouldAgrees(e.children[n], at + [n], bs, bs');
    }
  }

  /** What is emitted below an entry depends on how ties are broken there. */
  lemma {:induction false} EmitsAgrees(e: Entry, at: Path, pl: Place, aggregate: bool, bs: Breaks, bs': Breaks, d: Path)
    requires V.AgreeFrom(at, bs, bs')
    ensures EmitsDelete(e, at, pl, aggregate, bs, d) <==> EmitsDelete(e, at, pl, aggregate, bs', d)
    decreases d
  {
    KeysAgree(e, at, pl.keys, bs, bs');
    V.ShouldAgrees(e, at, bs, bs');
    if d != [] {
      assert ChoiceDeletesBy(e, at, bs, d[0]) <==> ChoiceDeletesBy(e, at, bs', d[0]);
      if d[0] in e.children {
        V.AgreeBelow(at, bs, bs', d[0]);
        EmitsAgrees(e.children[d[0]], at + [d[0]], Below(e, pl), aggregate, bs, bs', d[1..]);
      }
    }
  }

  lemma {:induction false} SiblingSame(b: Break, b': Break, p: Path, k: string, x: string)
    requires SameApart(b, b', p + [k]) && x != k
    ensures V.SameFrom(p + [x], b, b')
  {
    forall q: Path, ch | p + [x] <= q ensures b(q, ch) == b'(q, ch) {
      SiblingNotBelow(p, k, x, q[|p| + 1..]);
      assert q == p + [x] + q[|p| + 1..];
    }
  }

  /** A step below one child leaves the ties below the others as they were broken. */
  lemma {:induction false} SiblingAgrees(m: Memo, m': Memo, p: Path, k: string, x: string)
    requires Step(m, m', p + [k]) && x != k
    ensures V.AgreeFrom(p + [x], m.bs, m'.bs)
  {
    SiblingSame(m.bs.can, m'.bs.can, p, k, x);
    SiblingSame(m.bs.should, m'.bs.should, p, k, x);
    SiblingSame(m.bs.remains, m'.bs.remains, p, k, x);
    SiblingSame(m.bs.now, m'.bs.now, p, k, x);
    SiblingSame(m.bs.before, m'.bs.before, p, k, x);
  }

  lemma {:induction false} SoFarAgrees(e: Entry, p: Path, pl: Place, aggregate: bool, m: Memo, m': Memo, done: set<string>, k: string, d: Path)
    requires Step(m, m', p + [k]) && k !in done
    ensures EmitsSoFar(e, p, pl, aggregate, m.bs, done, d) <==> EmitsSoFar(e, p, pl, aggregate, m'.bs, done, d)
  {
    ChildIsOther(p, k);
    if d != [] {
      assert ChoiceDeletesBy(e, p, m.bs, d[0]) <==> ChoiceDeletesBy(e, p, m'.bs, d[0]);
      if d[0] in e.children && d[0] in done {
        SiblingAgrees(m, m', p, k, d[0]);
        EmitsAgrees(e.children[d[0]], p + [d[0]], Below(e, pl), aggregate, m.bs, m'.bs, d[1..]);
      }
    }
  }

  lemma {:induction false} EmittedSplit(out: seq<Path>, out': seq<Path>, n: nat, x: Path)
    requires n <= |out| && out <= out'
    ensures Emitted(out', n, x) <==> Emitted(out, n, x) || Emitted(out', |out|, x)
  {
    forall i | 0 <= i < |out| ensures out[i] == out'[i] {
    }
  }

  lemma {:induction false} EmittedBelow(out: seq<Path>, n: nat, p: Path, k: string, d: Path)
    requires AllBelow(out, n, p + [k]) && Emitted(out, n, p + d)
    ensures d != [] && d[0] == k
  {
    assert p + [k] <= p + d;
    assert (p + [k])[|p|] == k && |p + d| > |p| && (p + d)[|p|] == d[0];
  }

  lemma {:induction false} InScopeBelow(p: Path, d: Path, scope: iset<Path>)
    requires d != [] && InScope(p, d, scope)
    ensures InScope(p + [d[0]], d[1..], scope)
  {
    forall q: Path | q <= d[1..] ensures p + [d[0]] + q in scope {
      assert [d[0]] + q <= d;
      assert p + ([d[0]] + q) == p + [d[0]] + q;
    }
  }

  /** Walking one more child adds what is emitted below it. */
  lemma {:induction false} ChildCollected(out: seq<Path>, out': seq<Path>, n: nat, p: Path, e: Entry, pl: Place, aggregate: bool,
                                          m: Memo, m': Memo, scope: iset<Path>, done: set<string>, k: string)
    requires n <= |out| && out <= out' && k in e.children && k !in done && Step(m, m', p + [k])
    requires CollectedSoFar(out, n, p, e, pl, aggregate, m.bs, scope, done)
    requires AllBelow(out', |out|, p + [k])
    requires CollectedAs(out', |out|, p + [k], e.children[k], Below(e, pl), aggregate, m'.bs, scope)
    ensures CollectedSoFar(out', n, p, e, pl, aggregate, m'.bs, scope, done + {k})
  {
    forall d | InScope(p, d, scope)
      ensures Emitted(out', n, p + d) <==> EmitsSoFar(e, p, pl, aggregate, m'.bs, done + {k}, d)
    {
      EmittedSplit(out, out', n, p + d);
      SoFarAgrees(e, p, pl, aggregate, m, m', done, k, d);
      if Emitted(out', |out|, p + d) {
        EmittedBelow(out', |out|, p, k, d);
      }
      if d != [] && d[0] == k {
        InScopeBelow(p, d, scope);
        assert p + d == p + [k] + d[1..];
      }
    }
  }

  lemma {:induction false} AllBelowParent(out: seq<Path>, out': seq<Path>, n: nat, p: Path, k: string)
    requires n <= |out| && out <= out' && AllBelow(out, n, p) && AllBelow(out', |out|, p + [k])
    ensures AllBelow(out', n, p)
  {
    forall i | n <= i < |out'| ensures p <= out'[i] {
      if i < |out| {
        assert out'[i] == out[i];
      } else {
        PrefixOfChild(p, k, out'[i]);
      }
    }
  }

  // ---------------------------------------------------------------- the deletes of changed choices

  type Pairs = map<string, (Option<string>, Option<string>)>

  ghost predicate OnePasses(e: Entry, pairs: Pairs) {
    pairs.Keys == e.choices.Keys && forall ch | ch in e.choices :: C.OnePass(e.choices[ch], pairs[ch].0, pairs[ch].1)
  }

  ghost function WithPairs(m: Memo, p: Path, pairs: Pairs): Memo {
    m.(bs := m.bs.(now := (q: Path, ch: string) => if q == p && ch in pairs then pairs[ch].0 else m.bs.now(q, ch),
                   before := (q: Path, ch: string) => if q == p && ch in pairs then pairs[ch].1 else m.bs.before(q, ch)))
  }

  lemma {:induction false} WithPairsGood(root: Entry, m: Memo, scope: iset<Path>, p: Path, e: Entry, pairs: Pairs)
    requires At(root, p) == Some(e) && OnePasses(e, pairs)
    ensures Step(m, WithPairs(m, p, pairs), p)
    ensures GoodFor(root, m, scope) ==> GoodFor(root, WithPairs(m, p, pairs), scope)
  {
    var m' := WithPairs(m, p, pairs);
    if GoodFor(root, m, scope) {
      forall q | At(root, q).Some? ensures FairHere(At(root, q).value, q, m'.bs) {
        assert FairHere(At(root, q).value, q, m.bs);
      }
      forall q | q in scope && At(root, q).Some? ensures BackedHere(At(root, q).value, q, m') {
        assert SameAt(m, m', q);
        StaysBacked(At(root, q).value, q, m, m', p);
      }
    }
  }

  /** The elements of the cases that lost their place. */
  method LostElements(e: Entry) returns (els: set<string>, ghost pairs: Pairs)
    ensures OnePasses(e, pairs)
    ensures forall el :: el in els <==> exists ch :: ch in e.choices && el in C.DeletesOf(e.choices[ch], pairs[ch].0, pairs[ch].1)
  {
    els, pairs := {}, map[];
    assert LostSoFar(e, els, pairs);
    var todo := e.choices.Keys;
    while todo != {}
      invariant todo <= e.choices.Keys && pairs.Keys == e.choices.Keys - todo
      invariant forall ch | ch in pairs :: C.OnePass(e.choices[ch], pairs[ch].0, pairs[ch].1)
      invariant LostSoFar(e, els, pairs)
      decreases todo
    {
      var ch :| ch in todo;
      var now, before := C.GetBestCases(e.choices[ch]);
      ghost var els0, pairs0 := els, pairs;
      if before.Some? && before != now {
        els := els + e.choices[ch].cases[before.value];
      }
      pairs := pairs[ch := (now, before)];
      todo := todo - {ch};
      LostStep(e, els0, pairs0, ch, now, before);
    }
  }

  ghost predicate LostSoFar(e: Entry, els: set<string>, pairs: Pairs)
    requires pairs.Keys <= e.choices.Keys
  {
    forall el :: el in els <==> exists c :: c in pairs && el in C.DeletesOf(e.choices[c], pairs[c].0, pairs[c].1)
  }

  lemma {:induction false} LostStep(e: Entry, els: set<string>, pairs: Pairs, ch: string, now: Option<string>, before: Option<string>)
    requires pairs.Keys <= e.choices.Keys && ch in e.choices && ch !in pairs && LostSoFar(e, els, pairs)
    ensures LostSoFar(e, els + C.DeletesOf(e.choices[ch], now, before), pairs[ch := (now, before)])
  {
    var pairs' := pairs[ch := (now, before)];
    forall el | el in els + C.DeletesOf(e.choices[ch], now, before)
      ensures exists c :: c in pairs' && el in C.DeletesOf(e.choices[c], pairs'[c].0, pairs'[c].1)
    {
      if el in els {
        var c :| c in pairs && el in C.DeletesOf(e.choices[c], pairs[c].0, pairs[c].1);
        assert c in pairs' && el in C.DeletesOf(e.choices[c], pairs'[c].0, pairs'[c].1);
      } else {
        assert ch in pairs' && el in C.DeletesOf(e.choices[ch], pairs'[ch].0, pairs'[ch].1);
      }
    }
  }

  method AppendElements(p: Path, els: set<string>, deletes: seq<Path>) returns (out: seq<Path>)
    ensures deletes <= out && AllBelow(out, |deletes|, p)
    ensures forall d: Path :: Emitted(out, |deletes|, p + d) <==> |d| == 1 && d[0] in els
  {
    out := deletes;
    var todo := els;
    while todo != {}
      invariant todo <= els && deletes <= out && AllBelow(out, |deletes|, p)
      invariant forall d: Path :: Emitted(out, |deletes|, p + d) <==> |d| == 1 && d[0] in els - todo
      decreases todo
    {
      var el :| el in todo;
      AppendOne(p, els - todo, el, deletes, out);
      out := out + [p + [el]];
      todo := todo - {el};
      assert els - todo == els - (todo + {el}) + {el};
    }
    assert els - {} == els;
  }

  lemma {:induction false} AppendOne(p: Path, done: set<string>, el: string, deletes: seq<Path>, out: seq<Path>)
    requires deletes <= out && forall d: Path :: Emitted(out, |deletes|, p + d) <==> |d| == 1 && d[0] in done
    ensures forall d: Path :: Emitted(out + [p + [el]], |deletes|, p + d) <==> |d| == 1 && d[0] in done + {el}
  {
    var out' := out + [p + [el]];
    forall d: Path ensures Emitted(out', |deletes|, p + d) <==> |d| == 1 && d[0] in done + {el} {
      EmittedSplit(out, out', |deletes|, p + d);
      assert out'[|out|] == p + [el];
      assert Emitted(out', |out|, p + d) <==> p + d == p + [el];
      assert p + d == p + [el] <==> d == [el] by {
        assert (p + d)[|p|..] == d && (p + [el])[|p|..] == [el];
      }
    }
  }

  method ChoiceWalk(t: CachedTree, p: Path, e: Entry, pl: Place, aggregate: bool, deletes: seq<Path>) returns (out: seq<Path>)
    requires At(t.root, p) == Some(e)
    modifies t`bs
    ensures Step(old(t.Memory()), t.Memory(), p)
    ensures old(t.Good()) ==> t.Good()
    ensures deletes <= out && AllBelow(out, |deletes|, p)
    ensures CollectedSoFar(out, |deletes|, p, e, pl, aggregate, t.bs, t.scope, {})
  {
    out := deletes;
    if !(aggregate && IsListElement(e, pl)) {
      var els;
      ghost var pairs;
      els, pairs := LostElements(e);
      out := AppendElements(p, els, deletes);
      WithPairsGood(t.root, t.Memory(), t.scope, p, e, pairs);
      t.bs := WithPairs(t.Memory(), p, pairs).bs;
      assert forall el :: el in els <==> ChoiceDeletesBy(e, p, t.bs, el);
    }
  }

  // ---------------------------------------------------------------- the walk for deletes

  /** The recursive walk over all children, active or not, in any order. */
  method DeletesWalk(t: CachedTree, p: Path, e: Entry, pl: Place, aggregate: bool, deletes: seq<Path>) returns (out: seq<Path>)
    requires At(t.root, p) == Some(e)
    modifies t`can, t`should, t`bs
    ensures Step(old(t.Memory()), t.Memory(), p)
    ensures old(t.Good()) ==> t.Good()
    ensures deletes <= out && AllBelow(out, |deletes|, p)
    ensures old(t.Good()) ==> CollectedAs(out, |deletes|, p, e, pl, aggregate, t.bs, t.scope)
    decreases e, 2
  {
    var whole := AskDeletedWhole(t, p, e, pl, aggregate);
    ghost var asked := t.Memory();
    if whole {
      out := deletes + [p];
    } else {
      out := ChoiceWalk(t, p, e, pl, aggregate, deletes);
      ghost var chosen := t.Memory();
      out := ChildrenWalk(t, p, e, pl, aggregate, out, |deletes|);
      StepOn(asked, chosen, t.Memory(), p);
      StepOn(old(t.Memory()), asked, t.Memory(), p);
    }
    if old(t.Good()) {
      WalkCollected(t.root, asked, t.Memory(), t.scope, p, e, pl, aggregate, whole, deletes, out);
    }
  }

  lemma {:induction false} WalkCollected(root: Entry, m: Memo, m': Memo, scope: iset<Path>, p: Path, e: Entry, pl: Place, aggregate: bool,
                                         whole: bool, deletes: seq<Path>, out: seq<Path>)
    requires GoodFor(root, m', scope) && At(root, p) == Some(e) && Step(m, m', p)
    requires p in scope ==> WholeFor(e, p, pl, aggregate, m, whole)
    requires if whole then out == deletes + [p] else CollectedSoFar(out, |deletes|, p, e, pl, aggregate, m'.bs, scope, e.children.Keys)
    ensures CollectedAs(out, |deletes|, p, e, pl, aggregate, m'.bs, scope)
  {
    forall d | InScope(p, d, scope) ensures Emitted(out, |deletes|, p + d) <==> EmitsDelete(e, p, pl, aggregate, m'.bs, d) {
      assert [] <= d && p + [] == p;
      WholeStays(e, p, pl, aggregate, m, m', whole);
      WholeMeans(root, m', scope, p, e, pl, aggregate, whole);
      if whole {
        assert (deletes + [p])[|deletes|] == p;
        assert Emitted(out, |deletes|, p + d) <==> p + d == p;
        assert |p + d| == |p| + |d|;
      }
    }
  }

  method ChildrenWalk(t: CachedTree, p: Path, e: Entry, pl: Place, aggregate: bool, start: seq<Path>, n: nat) returns (out: seq<Path>)
    requires At(t.root, p) == Some(e) && n <= |start| && AllBelow(start, n, p)
    requires CollectedSoFar(start, n, p, e, pl, aggregate, t.bs, t.scope, {})
    modifies t`can, t`should, t`bs
    ensures Step(old(t.Memory()), t.Memory(), p)
    ensures old(t.Good()) ==> t.Good()
    ensures start <= out && AllBelow(out, n, p)
    ensures old(t.Good()) ==> CollectedSoFar(out, n, p, e, pl, aggregate, t.bs, t.scope, e.children.Keys)
    decreases e, 1
  {
    out := start;
    ghost var good := t.Good();
    var todo := e.children.Keys;
    assert e.children.Keys - todo == {};
    while todo != {}
      invariant todo <= e.children.Keys
      invariant Step(old(t.Memory()), t.Memory(), p)
      invariant good ==> t.Good()
      invariant start <= out && AllBelow(out, n, p)
      invariant good ==> CollectedSoFar(out, n, p, e, pl, aggregate, t.bs, t.scope, e.children.Keys - todo)
      decreases todo
    {
      var k :| k in todo;
      ghost var done, before := e.children.Keys - todo, t.Memory();
      out := ChildWalk(t, p, e, pl, aggregate, out, n, k, done, good);
      StepOn(old(t.Memory()), before, t.Memory(), p);
      todo := todo - {k};
      assert e.children.Keys - todo == done + {k};
    }
    assert e.children.Keys - {} == e.children.Keys;
  }

  method ChildWalk(t: CachedTree, p: Path, e: Entry, pl: Place, aggregate: bool, before: seq<Path>, n: nat, k: string, ghost done: set<string>, ghost good: bool)
    returns (out: seq<Path>)
    requires At(t.root, p) == Some(e) && n <= |before| && AllBelow(before, n, p) && k in e.children && k !in done
    requires good ==> t.Good() && CollectedSoFar(before, n, p, e, pl, aggregate, t.bs, t.scope, done)
    modifies t`can, t`should, t`bs
    ensures Step(old(t.Memory()), t.Memory(), p)
    ensures before <= out && AllBelow(out, n, p)
    ensures good ==> t.Good() && CollectedSoFar(out, n, p, e, pl, aggregate, t.bs, t.scope, done + {k})
    decreases e, 0
  {
    AtChild(t.root, p, k);
    out := DeletesWalk(t, p + [k], e.children[k], Below(e, pl), aggregate, before);
    StepOfChild(old(t.Memory()), old(t.Memory()), t.Memory(), p, k);
    AllBelowParent(before, out, n, p, k);
    if good {
      ChildCollected(before, out, n, p, e, pl, aggregate, old(t.Memory()), t.Memory(), t.scope, done, k);
    }
  }

  /** The deletes collected with the caches: in scope, exactly those that one fair way of breaking
      ties emits. */
  method GetDeletes(t: CachedTree, aggregate: bool) returns (out: seq<Path>)
    requires t.Good()
    modifies t`can, t`should, t`bs
    ensures t.Good() && Fair(t.root, [], t.bs) && t.bs.update == old(t.bs.update)
    ensures forall d | InScope([], d, t.scope) :: d in out <==> EmitsDelete(t.root, [], ROOT, aggregate, t.bs, d)
  {
    out := DeletesWalk(t, [], t.root, ROOT, aggregate, []);
    FairFrom(t.root, t.bs, [], t.root);
    forall d | InScope([], d, t.scope) ensures d in out <==> EmitsDelete(t.root, [], ROOT, aggregate, t.bs, d) {
      assert [] + d == d;
      assert Emitted(out, 0, d) <==> d in out;
    }
  }

  // ---------------------------------------------------------------- the walk for updates

  type Update = (Path, L.LeafEntry)

  /** The walk from the entry at p emits this update. */
  ghost predicate Updated(e: Entry, p: Path, bs: Breaks, x: Update) {
    p <= x.0 && EmitsUpdate(e, p, bs, x.0[|p|..], x.1)
  }

  ghost predicate UpdatedSoFar(e: Entry, p: Path, bs: Breaks, done: set<string>, x: Update) {
    && p <= x.0
    && var q := x.0[|p|..];
       if q == [] then P.LeafUpdate(e.les, e.nonRevertive) == Some(x.1)
       else q[0] in done && q[0] in e.children && EmitsUpdate(e.children[q[0]], p + [q[0]], bs, q[1..], x.1)
  }

  lemma {:induction false} UpdateAgrees(e: Entry, at: Path, bs: Breaks, bs': Breaks, p: Path, u: L.LeafEntry)
    requires V.SameFrom(at, bs.update, bs'.update)
    ensures EmitsUpdate(e, at, bs, p, u) <==> EmitsUpdate(e, at, bs', p, u)
    decreases p
  {
    if p != [] {
      assert ActiveBy(e, at, bs.update) == ActiveBy(e, at, bs'.update);
      if p[0] in e.children {
        V.LaterSame(at, bs.update, bs'.update, p[0]);
        UpdateAgrees(e.children[p[0]], at + [p[0]], bs, bs', p[1..], u);
      }
    }
  }

  lemma {:induction false} SoFarAlone(e: Entry, p: Path, bs: Breaks, x: Update)
    ensures UpdatedSoFar(e, p, bs, {}, x) <==> P.LeafUpdate(e.les, e.nonRevertive) == Some(x.1) && x.0 == p
  {
    if p <= x.0 && x.0[|p|..] == [] {
      assert x.0 == p;
    }
  }

  lemma {:induction false} SoFarChild(e: Entry, p: Path, bs: Breaks, bs': Breaks, done: set<string>, k: string, x: Update)
    requires SameApart(bs.update, bs'.update, p + [k]) && k in e.children && k !in done
    ensures UpdatedSoFar(e, p, bs', done + {k}, x) <==> UpdatedSoFar(e, p, bs, done, x) || Updated(e.children[k], p + [k], bs', x)
  {
    if p <= x.0 {
      var q := x.0[|p|..];
      assert x.0 == p + q;
      if q != [] {
        assert p + [q[0]] <= x.0 && x.0[|p| + 1..] == q[1..];
        assert p + [k] <= x.0 ==> q[0] == k by {
          assert (p + [k])[|p|] == k;
        }
        if q[0] != k && q[0] in e.children {
          SiblingSame(bs.update, bs'.update, p, k, q[0]);
          UpdateAgrees(e.children[q[0]], p + [q[0]], bs, bs', q[1..], x.1);
        }
      }
    } else {
      PrefixOfChild(p, k, x.0);
    }
  }

  lemma {:induction false} SoFarAll(e: Entry, p: Path, bs: Breaks, x: Update)
    ensures UpdatedSoFar(e, p, bs, ActiveBy(e, p, bs.update), x) <==> Updated(e, p, bs, x)
  {
  }

  ghost predicate OnlyUpdate(bs: Breaks, bs': Breaks, p: Path) {
    bs' == bs.(update := bs'.update) && SameApart(bs.update, bs'.update, p)
  }

  lemma {:induction false} OnlyUpdateGood(root: Entry, m: Memo, scope: iset<Path>, p: Path, e: Entry, pick: Pick)
    requires GoodFor(root, m, scope) && At(root, p) == Some(e) && Picks(e, pick)
    ensures GoodFor(root, m.(bs := m.bs.(update := Put(m.bs.update, p, pick))), scope)
  {
    var m' := m.(bs := m.bs.(update := Put(m.bs.update, p, pick)));
    forall q | At(root, q).Some? ensures FairHere(At(root, q).value, q, m'.bs) {
      assert FairHere(At(root, q).value, q, m.bs);
    }
    forall q | q in scope && At(root, q).Some? ensures BackedHere(At(root, q).value, q, m') {
      assert BackedHere(At(root, q).value, q, m);
    }
  }

  /** The walk over active children that collects the updates, in any order: exactly those the
      look-ups it made lead to. */
  method UpdatesWalk(t: CachedTree, p: Path, e: Entry, result: seq<Update>) returns (out: seq<Update>)
    requires t.Good() && At(t.root, p) == Some(e)
    modifies t`bs
    ensures t.Good() && OnlyUpdate(old(t.bs), t.bs, p)
    ensures forall x :: x in out <==> x in result || Updated(e, p, t.bs, x)
    decreases e, 2
  {
    var u := P.LeafUpdate(e.les, e.nonRevertive);
    var todo;
    ghost var pick;
    todo, pick := ActiveNames(e);
    OnlyUpdateGood(t.root, t.Memory(), t.scope, p, e, pick);
    PutActive(e, p, t.bs.update, pick);
    t.bs := t.bs.(update := Put(t.bs.update, p, pick));
    out := result + if u.Some? then [(p, u.value)] else [];
    forall x ensures x in out <==> x in result || UpdatedSoFar(e, p, t.bs, {}, x) {
      SoFarAlone(e, p, t.bs, x);
    }
    out := UpdatesBelow(t, p, e, result, out, todo);
    forall x ensures UpdatedSoFar(e, p, t.bs, todo, x) <==> Updated(e, p, t.bs, x) {
      SoFarAll(e, p, t.bs, x);
    }
  }

  method UpdatesBelow(t: CachedTree, p: Path, e: Entry, ghost result: seq<Update>, start: seq<Update>, names: set<string>) returns (out: seq<Update>)
    requires t.Good() && At(t.root, p) == Some(e) && names == ActiveBy(e, p, t.bs.update)
    requires forall x :: x in start <==> x in result || UpdatedSoFar(e, p, t.bs, {}, x)
    modifies t`bs
    ensures t.Good() && OnlyUpdate(old(t.bs), t.bs, p) && names == ActiveBy(e, p, t.bs.update)
    ensures forall x :: x in out <==> x in result || UpdatedSoFar(e, p, t.bs, names, x)
    decreases e, 1
  {
    out := start;
    var todo := names;
    ghost var b0 := t.bs;
    assert names - todo == {};
    while todo != {}
      invariant todo <= names && t.Good() && OnlyUpdate(b0, t.bs, p) && names == ActiveBy(e, p, t.bs.update)
      invariant forall x :: x in out <==> x in result || UpdatedSoFar(e, p, t.bs, names - todo, x)
      decreases todo
    {
      var k :| k in todo;
      ghost var done, before := names - todo, t.bs;
      out := UpdatesChild(t, p, e, result, out, k, done);
      SameOfChild(b0.update, before.update, t.bs.update, p, k);
      ChildIsOther(p, k);
      assert ActiveBy(e, p, t.bs.update) == ActiveBy(e, p, before.update);
      todo := todo - {k};
      assert names - todo == done + {k};
    }
    assert names - {} == names;
  }

  method UpdatesChild(t: CachedTree, p: Path, e: Entry, ghost result: seq<Update>, before: seq<Update>, k: string, ghost done: set<string>) returns (out: seq<Update>)
    requires t.Good() && At(t.root, p) == Some(e) && k in e.children && k !in done
    requires forall x :: x in before <==> x in result || UpdatedSoFar(e, p, t.bs, done, x)
    modifies t`bs
    ensures t.Good() && OnlyUpdate(old(t.bs), t.bs, p + [k])
    ensures forall x :: x in out <==> x in result || UpdatedSoFar(e, p, t.bs, done + {k}, x)
    decreases e, 0
  {
    AtChild(t.root, p, k);
    out := UpdatesWalk(t, p + [k], e.children[k], before);
    forall x ensures x in out <==> x in result || UpdatedSoFar(e, p, t.bs, done + {k}, x) {
      SoFarChild(e, p, old(t.bs), t.bs, done, k, x);
    }
  }

  // ---------------------------------------------------------------- both walks

  /** What is sent to the device: updates first collected, then deletes. Both are those of one fair
      way of breaking ties. */
  method GetUpdatesAndDeletes(t: CachedTree, aggregate: bool) returns (updates: seq<Update>, deletes: seq<Path>)
    requires t.Good()
    modifies t`can, t`should, t`bs
    ensures t.Good() && Fair(t.root, [], t.bs)
    ensures forall x :: x in updates <==> EmitsUpdate(t.root, [], t.bs, x.0, x.1)
    ensures forall d | InScope([], d, t.scope) :: d in deletes <==> EmitsDelete(t.root, [], ROOT, aggregate, t.bs, d)
  {
    updates := UpdatesWalk(t, [], t.root, []);
    ghost var looked := t.bs;
    deletes := GetDeletes(t, aggregate);
    forall x ensures x in updates <==> EmitsUpdate(t.root, [], t.bs, x.0, x.1) {
      assert x.0[0..] == x.0;
      UpdateAgrees(t.root, [], looked, t.bs, x.0, x.1);
    }
  }

  // ---------------------------------------------------------------- without ties

  lemma {:induction false} WholeOneWay(e: Entry, at: Path, pl: Place, aggregate: bool, bs: Breaks)
    requires NoTies(e) && Fair(e, at, bs)
    ensures DeletedWholeBy(e, at, pl, aggregate, bs) <==> DeletedWhole(e, pl, aggregate)
  {
    if aggregate && IsListElement(e, pl) {
      forall n | n in e.children ensures ShouldDeleteBy(e.children[n], at + [n], bs) <==> ShouldDelete(e.children[n]) {
        ShouldDeleteByOneWay(e.children[n], at + [n], bs);
      }
    } else {
      ShouldDeleteByOneWay(e, at, bs);
    }
  }

  lemma {:induction false} ChoiceOneWay(e: Entry, at: Path, bs: Breaks, el: string)
    requires NodeNoTie(e) && Fair(e, at, bs)
    ensures ChoiceDeletesBy(e, at, bs, el) <==> el in C.Deletes(e.choices)
  {
    forall ch | ch in e.choices
      ensures bs.now(at, ch) == C.Best(e.choices[ch], C.Now) && bs.before(at, ch) == C.Best(e.choices[ch], C.Before)
    {
      assert C.OnePass(e.choices[ch], bs.now(at, ch), bs.before(at, ch));
    }
  }

  lemma {:induction false} DeletesMember(e: Entry, pl: Place, aggregate: bool, d: Path)
    requires !DeletedWhole(e, pl, aggregate)
    ensures d in Deletes(e, pl, aggregate) <==>
            && d != []
            && (|| (|d| == 1 && !(aggregate && IsListElement(e, pl)) && d[0] in C.Deletes(e.choices))
                || (d[0] in e.children && d[1..] in Deletes(e.children[d[0]], Below(e, pl), aggregate)))
  {
    if d != [] {
      assert d == [d[0]] + d[1..];
      assert |d| == 1 ==> d == [d[0]];
    }
  }

  /** Without ties the deletes at actively reachable entries are the one set there is. */
  lemma {:induction false} EmitsOneWay(e: Entry, at: Path, pl: Place, aggregate: bool, bs: Breaks, d: Path)
    requires NoTies(e) && Fair(e, at, bs) && ActiveAt(e, d).Some?
    ensures EmitsDelete(e, at, pl, aggregate, bs, d) <==> d in Deletes(e, pl, aggregate)
    decreases d
  {
    WholeOneWay(e, at, pl, aggregate, bs);
    if !DeletedWhole(e, pl, aggregate) {
      DeletesMember(e, pl, aggregate, d);
      if d != [] {
        ChoiceOneWay(e, at, bs, d[0]);
        EmitsOneWay(e.children[d[0]], at + [d[0]], Below(e, pl), aggregate, bs, d[1..]);
      }
    }
  }

  /** Without ties the updates are the one set there is. */
  lemma {:induction false} UpdatesOneWay(e: Entry, at: Path, bs: Breaks, p: Path, u: L.LeafEntry)
    requires NoTies(e) && Fair(e, at, bs)
    ensures EmitsUpdate(e, at, bs, p, u) <==> (p, u) in Updates(e)
    decreases p
  {
    UpdateAt(e, p, u);
    if p != [] {
      ActiveByOneWay(e, at, bs.update);
      if p[0] in Active(e) {
        UpdatesOneWay(e.children[p[0]], at + [p[0]], bs, p[1..], u);
        UpdateAt(e.children[p[0]], p[1..], u);
      }
    }
  }

  /** Above an actively reachable entry all entries are actively reachable. */
  lemma {:induction false} ActiveAbove(e: Entry, q: Path, p: Path)
    requires q <= p && ActiveAt(e, p).Some?
    ensures ActiveAt(e, q).Some?
    decreases q
  {
    if q != [] {
      ActiveAbove(e.children[q[0]], q[1..], p[1..]);
    }
  }

  lemma {:induction false} ActiveIsInScope(e: Entry, scope: iset<Path>, d: Path)
    requires ActiveAt(e, d).Some? && forall p | ActiveAt(e, p).Some? :: p in scope
    ensures InScope([], d, scope)
  {
    forall q: Path | q <= d ensures [] + q in scope {
      ActiveAbove(e, q, d);
      assert [] + q == q;
    }
  }

  /** The paths GetDeletes collects then cover an actively reachable entry exactly when the deletes do. */
  lemma {:induction false} CoversOneWay(root: Entry, bs: Breaks, scope: iset<Path>, aggregate: bool, out: seq<Path>, p: Path)
    requires NoTies(root) && Fair(root, [], bs) && forall q | ActiveAt(root, q).Some? :: q in scope
    requires forall d | InScope([], d, scope) :: d in out <==> EmitsDelete(root, [], ROOT, aggregate, bs, d)
    requires ActiveAt(root, p).Some?
    ensures (exists d :: d in out && d <= p) <==> Covered(Deletes(root, ROOT, aggregate), p)
  {
    forall d: Path | d <= p ensures d in out <==> d in Deletes(root, ROOT, aggregate) {
      ActiveAbove(root, d, p);
      ActiveIsInScope(root, scope, d);
      EmitsOneWay(root, [], ROOT, aggregate, bs, d);
    }
  }

  /** And nothing that is sent conflicts. */
  lemma {:induction false} SentWithoutConflict(root: Entry, bs: Breaks, scope: iset<Path>, aggregate: bool, updates: seq<Update>, deletes: seq<Path>, x: Update, d: Path)
    requires NoTies(root) && Fair(root, [], bs) && forall q | ActiveAt(root, q).Some? :: q in scope
    requires LeavesOk(root) && NoPresenceConflict(root) && F.ResolversOk(root) && (aggregate ==> F.KeysGuarded(root, ROOT))
    requires forall x :: x in updates <==> EmitsUpdate(root, [], bs, x.0, x.1)
    requires forall d | InScope([], d, scope) :: d in deletes <==> EmitsDelete(root, [], ROOT, aggregate, bs, d)
    requires x in updates && d in deletes
    ensures !(d <= x.0)
  {
    if d <= x.0 {
      UpdateIsActive(root, [], bs, x.0, x.1);
      ActiveAbove(root, d, x.0);
      ActiveIsInScope(root, scope, d);
      ConflictFreedom(root, [], ROOT, aggregate, bs, d, x.0, x.1);
    }
  }
}
