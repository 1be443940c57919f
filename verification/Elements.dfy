/** What the walk for deletes emits (pkg/tree/ops/getdeletes.go), told by paths and schema positions:
    an independent description of the recursive walk. */
module Elements {
  import opened Base
  import opened Tree
  import opened Paths
  import opened Ties
  import Southbound
  import Insertion
  import X = Export
  import C = Choices
  import L = Leaves

  // ---------------------------------------------------------------- positions of list elements

  /** The content of a list element starts here: all its key levels are passed. */
  predicate ElementCtx(d: Ctx) {
    d.level > 0 && d.level == |KeyNames(d)|
  }

  /** No schema declares a key twice. */
  ghost predicate KeysOnce(s: Schema) {
    s.Container? ==> Insertion.Distinct(s.keys) && forall k | k in s.children :: KeysOnce(s.children[k])
  }

  lemma {:induction false} InsertLonger(s: seq<string>, x: string)
    requires x !in s
    ensures |Insert(s, x)| == |s| + 1
  {
    if s != [] && !Less(x, s[0]) {
      InsertLonger(s[1..], x);
    }
  }

  lemma {:induction false} AllKeysKept(keys: seq<string>)
    requires Insertion.Distinct(keys)
    ensures |Alphabetical(keys)| == |keys|
  {
    if keys != [] {
      AllKeysKept(keys[1..]);
      AlphabeticalSorts(keys[1..]);
      assert keys[0] !in keys[1..];
      InsertLonger(Alphabetical(keys[1..]), keys[0]);
    }
  }

  /** What the walk knows about a position agrees with the schema. */
  predicate Fits(c: Ctx, pl: Southbound.Place) {
    c.level > 0 ==> pl.keys == SchemaKeys(c.schema) && pl.level == c.level && !pl.root
  }

  lemma {:induction false} FitsBelow(e: Entry, c: Ctx, pl: Southbound.Place, k: string)
    requires X.Typed(e, c) && Fits(c, pl) && k in e.children
    ensures Fits(ChildCtx(c, k).value, Southbound.Below(e, pl)) && !Southbound.Below(e, pl).root
  {
  }

  /** The entries that may be deleted by their keys are exactly the list elements. */
  lemma {:induction false} ElementsExactly(e: Entry, c: Ctx, pl: Southbound.Place)
    requires X.Typed(e, c) && KeysOnce(c.schema) && Fits(c, pl)
    ensures Southbound.IsListElement(e, pl) <==> ElementCtx(c)
    ensures ElementCtx(c) ==> forall n :: n in pl.keys <==> n in KeyNames(c)
  {
    AlphabeticalSorts(SchemaKeys(c.schema));
    if c.schema.Container? {
      AllKeysKept(c.schema.keys);
    }
  }

  lemma {:induction false} OnceBelow(c: Ctx, k: string)
    requires KeysOnce(c.schema) && ChildCtx(c, k).Some?
    ensures KeysOnce(ChildCtx(c, k).value.schema)
  {
  }

  // ---------------------------------------------------------------- what is deleted as a whole

  /** An entry n at position d goes as a whole: a list element, if aggregated, when no key leaf of it
      stays; any other entry but the root and lists by its own verdict. */
  ghost predicate Goes(n: Entry, d: Ctx, at: Path, top: bool, aggregate: bool, bs: Breaks) {
    if aggregate && ElementCtx(d)
    then forall k | k in KeyNames(d) && k in n.children :: ShouldDeleteBy(n.children[k], at + [k], bs)
    else !top && !(d.level == 0 && KeyNames(d) != []) && ShouldDeleteBy(n, at, bs)
  }

  lemma {:induction false} GoesExactly(e: Entry, c: Ctx, at: Path, pl: Southbound.Place, aggregate: bool, bs: Breaks)
    requires X.Typed(e, c) && KeysOnce(c.schema) && Fits(c, pl)
    ensures DeletedWholeBy(e, at, pl, aggregate, bs) <==> Goes(e, c, at, pl.root, aggregate, bs)
  {
    ElementsExactly(e, c, pl);
    AlphabeticalSorts(SchemaKeys(c.schema));
    if c.level == 0 {
      assert Keys(e) == SchemaKeys(c.schema);
      assert Keys(e) != [] ==> Keys(e)[0] in KeyNames(c);
      assert KeyNames(c) != [] ==> KeyNames(c)[0] in Keys(e);
    }
  }

  ghost predicate GoesAt(e: Entry, c: Ctx, at: Path, top: bool, aggregate: bool, bs: Breaks, q: Path) {
    && At(e, q).Some? && CtxAt(c, q).Some?
    && Goes(At(e, q).value, CtxAt(c, q).value, at + q, top && q == [], aggregate, bs)
  }

  /** A changed choice of the entry at q deletes the element el; list elements carry no choices. */
  ghost predicate CaseGoes(e: Entry, c: Ctx, at: Path, aggregate: bool, bs: Breaks, q: Path, el: string) {
    && At(e, q).Some? && CtxAt(c, q).Some? && !(aggregate && ElementCtx(CtxAt(c, q).value))
    && ChoiceDeletesBy(At(e, q).value, at + q, bs, el)
  }

  ghost predicate NoneGoesAbove(e: Entry, c: Ctx, at: Path, top: bool, aggregate: bool, bs: Breaks, d: Path) {
    forall q: Path | q < d :: !GoesAt(e, c, at, top, aggregate, bs, q)
  }

  /** The paths emitted: nothing above goes as a whole, and the entry does, or its case does. */
  ghost predicate Emitted(e: Entry, c: Ctx, at: Path, top: bool, aggregate: bool, bs: Breaks, d: Path) {
    && NoneGoesAbove(e, c, at, top, aggregate, bs, d)
    && (|| GoesAt(e, c, at, top, aggregate, bs, d)
        || (d != [] && CaseGoes(e, c, at, aggregate, bs, Up(d), d[|d| - 1])))
  }

  lemma {:induction false} GoesBelow(e: Entry, c: Ctx, at: Path, top: bool, aggregate: bool, bs: Breaks, k: string, q: Path)
    requires X.Typed(e, c) && k in e.children
    ensures GoesAt(e, c, at, top, aggregate, bs, [k] + q) <==>
            GoesAt(e.children[k], ChildCtx(c, k).value, at + [k], false, aggregate, bs, q)
  {
    assert ([k] + q)[1..] == q && at + ([k] + q) == at + [k] + q;
  }

  lemma {:induction false} CaseBelow(e: Entry, c: Ctx, at: Path, aggregate: bool, bs: Breaks, k: string, q: Path, el: string)
    requires X.Typed(e, c) && k in e.children
    ensures CaseGoes(e, c, at, aggregate, bs, [k] + q, el) <==>
            CaseGoes(e.children[k], ChildCtx(c, k).value, at + [k], aggregate, bs, q, el)
  {
    assert ([k] + q)[1..] == q && at + ([k] + q) == at + [k] + q;
  }

  /** Below an entry that stays, the paths through a child are those of the child. */
  lemma {:induction false} EmittedBelow(e: Entry, c: Ctx, at: Path, top: bool, aggregate: bool, bs: Breaks, d: Path)
    requires X.Typed(e, c) && d != [] && d[0] in e.children && !GoesAt(e, c, at, top, aggregate, bs, [])
    ensures var k := d[0]; var below := ChildCtx(c, k).value;
            Emitted(e, c, at, top, aggregate, bs, d) <==>
            Emitted(e.children[k], below, at + [k], false, aggregate, bs, d[1..])
            || (|d| == 1 && CaseGoes(e, c, at, aggregate, bs, [], k))
  {
    var k := d[0];
    assert d == [k] + d[1..];
    GoesBelow(e, c, at, top, aggregate, bs, k, d[1..]);
    NothingAbove(e, c, at, top, aggregate, bs, d);
    LastCase(e, c, at, aggregate, bs, d);
  }

  lemma {:induction false} LastCase(e: Entry, c: Ctx, at: Path, aggregate: bool, bs: Breaks, d: Path)
    requires X.Typed(e, c) && d != [] && d[0] in e.children
    ensures CaseGoes(e, c, at, aggregate, bs, Up(d), d[|d| - 1]) <==>
            if |d| == 1 then CaseGoes(e, c, at, aggregate, bs, [], d[0])
            else CaseGoes(e.children[d[0]], ChildCtx(c, d[0]).value, at + [d[0]], aggregate, bs, Up(d[1..]), d[1..][|d[1..]| - 1])
  {
    if |d| > 1 {
      assert Up(d) == [d[0]] + Up(d[1..]) && d[1..][|d[1..]| - 1] == d[|d| - 1];
      CaseBelow(e, c, at, aggregate, bs, d[0], Up(d[1..]), d[|d| - 1]);
    } else {
      assert Up(d) == [];
    }
  }

  lemma {:induction false} NothingAbove(e: Entry, c: Ctx, at: Path, top: bool, aggregate: bool, bs: Breaks, d: Path)
    requires X.Typed(e, c) && d != [] && d[0] in e.children && !GoesAt(e, c, at, top, aggregate, bs, [])
    ensures NoneGoesAbove(e, c, at, top, aggregate, bs, d) <==>
            NoneGoesAbove(e.children[d[0]], ChildCtx(c, d[0]).value, at + [d[0]], false, aggregate, bs, d[1..])
  {
    var k, below := d[0], ChildCtx(c, d[0]).value;
    if NoneGoesAbove(e, c, at, top, aggregate, bs, d) {
      forall q: Path | q < d[1..] ensures !GoesAt(e.children[k], below, at + [k], false, aggregate, bs, q) {
        GoesBelow(e, c, at, top, aggregate, bs, k, q);
        assert [k] + q < d;
      }
    }
    if NoneGoesAbove(e.children[k], below, at + [k], false, aggregate, bs, d[1..]) {
      forall q: Path | q < d ensures !GoesAt(e, c, at, top, aggregate, bs, q) {
        if q != [] {
          assert q == [k] + q[1..] && q[1..] < d[1..];
          GoesBelow(e, c, at, top, aggregate, bs, k, q[1..]);
        }
      }
    }
  }

  lemma {:induction false} NotBelow(e: Entry, c: Ctx, at: Path, top: bool, aggregate: bool, bs: Breaks, d: Path)
    requires d != [] && d[0] !in e.children && !GoesAt(e, c, at, top, aggregate, bs, [])
    ensures Emitted(e, c, at, top, aggregate, bs, d) <==> |d| == 1 && CaseGoes(e, c, at, aggregate, bs, [], d[0])
  {
    forall q: Path | q < d ensures !GoesAt(e, c, at, top, aggregate, bs, q) {
    }
    if |d| > 1 {
      assert Up(d)[0] == d[0];
    } else {
      assert Up(d) == [];
    }
  }

  /** The recursive walk emits exactly these paths. */
  lemma {:induction false} EmittedExactly(e: Entry, c: Ctx, at: Path, pl: Southbound.Place, aggregate: bool, bs: Breaks, d: Path)
    requires X.Typed(e, c) && KeysOnce(c.schema) && Fits(c, pl)
    ensures EmitsDelete(e, at, pl, aggregate, bs, d) <==> Emitted(e, c, at, pl.root, aggregate, bs, d)
    decreases d
  {
    GoesExactly(e, c, at, pl, aggregate, bs);
    ElementsExactly(e, c, pl);
    assert at + [] == at;
    if GoesAt(e, c, at, pl.root, aggregate, bs, []) {
      assert d != [] ==> [] < d;
    } else if d != [] {
      if d[0] in e.children {
        var below := ChildCtx(c, d[0]).value;
        FitsBelow(e, c, pl, d[0]);
        OnceBelow(c, d[0]);
        EmittedExactly(e.children[d[0]], below, at + [d[0]], Southbound.Below(e, pl), aggregate, bs, d[1..]);
        EmittedBelow(e, c, at, pl.root, aggregate, bs, d);
      } else {
        NotBelow(e, c, at, pl.root, aggregate, bs, d);
      }
    }
  }

  /** The walk from the root, aggregated or not. */
  lemma {:induction false} DeletesByPath(root: Entry, c: Ctx, aggregate: bool, bs: Breaks, d: Path)
    requires X.Typed(root, c) && KeysOnce(c.schema) && c.level == 0
    ensures EmitsDelete(root, [], Southbound.ROOT, aggregate, bs, d) <==> Emitted(root, c, [], true, aggregate, bs, d)
  {
    EmittedExactly(root, c, [], Southbound.ROOT, aggregate, bs, d);
  }

  // ---------------------------------------------------------------- a tree without delete marks

  predicate UnmarkedLeaf(les: seq<L.LeafEntry>) {
    forall i | 0 <= i < |les| :: !les[i].delete
  }

  /** No variant is marked deleted, no choice changed its numbers, and every entry with choices has
      a child that every look-up visits. */
  ghost predicate Unmarked(e: Entry) {
    && UnmarkedLeaf(e.les)
    && (forall ch | ch in e.choices :: Unchanged(e.choices[ch]))
    && (e.choices != map[] ==> exists k :: MustVisit(e, k))
    && forall k | k in e.children :: Unmarked(e.children[k])
  }

  lemma {:induction false} UnmarkedStays(les: seq<L.LeafEntry>)
    requires L.WellFormed(les) && UnmarkedLeaf(les)
    ensures !L.ShouldDelete(les)
  {
    if les != [] {
      assert L.FlagsOk(L.Highest(les)) && L.Highest(les) in les;
    }
    if L.HasIntent(les) {
      var i :| 0 <= i < |les| && IsIntent(les[i].owner);
      assert les[i].Survives();
    }
  }

  lemma {:induction false} VisitedIsActive(e: Entry, at: Path, b: Break, k: string)
    requires Admits(e, at, b, C.Now) && MustVisit(e, k)
    ensures k in ActiveBy(e, at, b)
  {
    if e.schema.Some? {
      forall ch | ch in e.choices ensures k !in C.SkipOf(e.choices[ch], b(at, ch)) {
      }
    }
  }

  lemma {:induction false} UnmarkedNotDeleted(e: Entry, at: Path, bs: Breaks)
    requires LeavesOk(e) && Unmarked(e) && Fair(e, at, bs)
    ensures !ShouldDeleteBy(e, at, bs)
    decreases e
  {
    UnmarkedStays(e.les);
    if e.choices != map[] {
      var k :| MustVisit(e, k);
      VisitedIsActive(e, at, bs.should, k);
    }
    forall k | k in ActiveBy(e, at, bs.should) ensures !ShouldDeleteBy(e.children[k], at + [k], bs) {
      UnmarkedNotDeleted(e.children[k], at + [k], bs);
    }
  }

  lemma {:induction false} UnmarkedAt(e: Entry, at: Path, bs: Breaks, p: Path)
    requires LeavesOk(e) && Unmarked(e) && Fair(e, at, bs) && At(e, p).Some?
    ensures LeavesOk(At(e, p).value) && Unmarked(At(e, p).value) && Fair(At(e, p).value, at + p, bs)
    decreases p
  {
    if p == [] {
      assert at + p == at;
    } else {
      assert at + p == at + [p[0]] + p[1..];
      UnmarkedAt(e.children[p[0]], at + [p[0]], bs, p[1..]);
    }
  }

  /** A choice whose numbers did not change deletes nothing, however its ties break. */
  lemma {:induction false} UnchangedCaseStays(r: C.Resolver, now: Option<string>, before: Option<string>)
    requires Unchanged(r) && C.OnePass(r, now, before)
    ensures C.DeletesOf(r, now, before) == {}
  {
    forall c | c in r.cases ensures C.CaseMin(r, c, C.Now) == C.CaseMin(r, c, C.Before) {
      UnchangedMinimum(r, c);
    }
  }

  lemma {:induction false} NoCaseGoes(e: Entry, c: Ctx, aggregate: bool, bs: Breaks, q: Path, el: string)
    requires LeavesOk(e) && Unmarked(e) && Fair(e, [], bs)
    ensures !CaseGoes(e, c, [], aggregate, bs, q, el)
  {
    if At(e, q).Some? {
      UnmarkedAt(e, [], bs, q);
      var n := At(e, q).value;
      forall ch | ch in n.choices ensures C.DeletesOf(n.choices[ch], bs.now([] + q, ch), bs.before([] + q, ch)) == {} {
        UnchangedCaseStays(n.choices[ch], bs.now([] + q, ch), bs.before([] + q, ch));
      }
    }
  }

  /** A list element without an entry for any of its keys. */
  ghost predicate Keyless(e: Entry, c: Ctx, p: Path) {
    && At(e, p).Some? && CtxAt(c, p).Some? && ElementCtx(CtxAt(c, p).value)
    && forall k | k in KeyNames(CtxAt(c, p).value) :: k !in At(e, p).value.children
  }

  lemma {:induction false} OnlyKeylessGo(root: Entry, c: Ctx, aggregate: bool, bs: Breaks, p: Path)
    requires X.Typed(root, c) && LeavesOk(root) && Unmarked(root) && Fair(root, [], bs)
    ensures GoesAt(root, c, [], true, aggregate, bs, p) <==> aggregate && Keyless(root, c, p)
  {
    if At(root, p).Some? {
      UnmarkedAt(root, [], bs, p);
      var n := At(root, p).value;
      UnmarkedNotDeleted(n, [] + p, bs);
      forall k | k in n.children ensures !ShouldDeleteBy(n.children[k], [] + p + [k], bs) {
        UnmarkedNotDeleted(n.children[k], [] + p + [k], bs);
      }
    }
  }

  lemma {:induction false} FirstKeyless(root: Entry, c: Ctx, bs: Breaks, p: Path) returns (d: Path)
    requires X.Typed(root, c) && LeavesOk(root) && Unmarked(root) && Fair(root, [], bs) && Keyless(root, c, p)
    ensures Emitted(root, c, [], true, true, bs, d)
    decreases |p|
  {
    OnlyKeylessGo(root, c, true, bs, p);
    if q: Path :| q < p && GoesAt(root, c, [], true, true, bs, q) {
      OnlyKeylessGo(root, c, true, bs, q);
      d := FirstKeyless(root, c, bs, q);
    } else {
      d := p;
    }
  }

  /** A tree without delete marks emits no delete, aggregated or not, whatever the number of keys; if
      aggregated, exactly when every list element has an entry for one of its keys. */
  lemma {:induction false} UnmarkedEmitsNothing(root: Entry, c: Ctx, aggregate: bool, bs: Breaks)
    requires X.Typed(root, c) && KeysOnce(c.schema) && c.level == 0
    requires LeavesOk(root) && Unmarked(root) && Fair(root, [], bs)
    ensures (forall d :: !EmitsDelete(root, [], Southbound.ROOT, aggregate, bs, d)) <==>
            (aggregate ==> forall p :: !Keyless(root, c, p))
  {
    if aggregate ==> forall p :: !Keyless(root, c, p) {
      forall d ensures !EmitsDelete(root, [], Southbound.ROOT, aggregate, bs, d) {
        DeletesByPath(root, c, aggregate, bs, d);
        OnlyKeylessGo(root, c, aggregate, bs, d);
        if d != [] {
          NoCaseGoes(root, c, aggregate, bs, Up(d), d[|d| - 1]);
        }
      }
    } else {
      var p :| Keyless(root, c, p);
      var d := FirstKeyless(root, c, bs, p);
      DeletesByPath(root, c, aggregate, bs, d);
    }
  }
}
