/** Exporting an owner's content from the tree (pkg/tree/ops/treeexport.go) and the round trip
    through the persisted form. */
module Export {
  import opened Base
  import opened Tree
  import opened Paths
  import opened Growth
  import opened Insertion
  import opened Persist
  import KeyLevels
  import L = Leaves
  import Southbound

  // ---------------------------------------------------------------- what an exported tree looks like

  /** Every entry sits where its schema says. */
  ghost predicate Typed(e: Entry, c: Ctx) {
    && e.schema == (if c.level == 0 then Some(c.schema) else None)
    && forall k | k in e.children :: ChildCtx(c, k).Some? && Typed(e.children[k], ChildCtx(c, k).value)
  }

  /** The owner's key leaves are present below every list element it uses, and match. */
  ghost predicate Closed(e: Entry, c: Ctx, names: seq<string>, owner: string) {
    forall p, q | LiveAt(e, p, owner).Some? && KeyLeafAt(c, names, p, q).Some? :: LiveAt(e, q, owner) == KeyLeafAt(c, names, p, q)
  }

  /** Values sit in leaves, leaf-lists and childless presence containers. */
  ghost predicate Holds(e: Entry, c: Ctx, p: Path, owner: string) {
    && CtxAt(c, p).Some?
    && var d := CtxAt(c, p).value;
    && d.level == 0
    && (d.schema.Container? ==>
          && d.schema.presence && KeyNames(d) == [] && LiveAt(e, p, owner) == Some(EMPTY)
          && forall q | p < q :: LiveAt(e, q, owner).None?)
  }

  ghost predicate Shaped(e: Entry, c: Ctx, owner: string) {
    forall p | LiveAt(e, p, owner).Some? :: Holds(e, c, p, owner)
  }

  /** No entry is that deep below e. */
  ghost predicate Bounded(e: Entry, b: nat) {
    forall p | At(e, p).Some? :: |p| < b
  }

  ghost predicate Exportable(e: Entry, c: Ctx, names: seq<string>, owner: string, b: nat) {
    Typed(e, c) && Closed(e, c, names, owner) && Shaped(e, c, owner) && |names| == c.level && Bounded(e, b)
  }

  lemma {:induction false} LiveBelow(e: Entry, k: string, q: Path, owner: string)
    requires k in e.children
    ensures LiveAt(e, [k] + q, owner) == LiveAt(e.children[k], q, owner) && At(e, [k] + q) == At(e.children[k], q)
  {
    assert ([k] + q)[1..] == q;
  }

  lemma {:induction false} ClosedChild(e: Entry, c: Ctx, names: seq<string>, owner: string, k: string, d: Ctx)
    requires Closed(e, c, names, owner) && k in e.children && ChildCtx(c, k) == Some(d)
    ensures Closed(e.children[k], d, Below(d, names, k), owner)
  {
    forall p, q | LiveAt(e.children[k], p, owner).Some? && KeyLeafAt(d, Below(d, names, k), p, q).Some?
      ensures LiveAt(e.children[k], q, owner) == KeyLeafAt(d, Below(d, names, k), p, q)
    {
      LiveBelow(e, k, p, owner);
      LiveBelow(e, k, q, owner);
      var kp, kq := [k] + p, [k] + q;
      assert kp[1..] == p && kq[1..] == q && q != [];
      assert KeyLeafAt(c, names, kp, kq) == KeyLeafAt(d, Below(d, names, k), p, q);
    }
  }

  lemma {:induction false} ShapedChild(e: Entry, c: Ctx, owner: string, k: string, d: Ctx)
    requires Shaped(e, c, owner) && k in e.children && ChildCtx(c, k) == Some(d)
    ensures Shaped(e.children[k], d, owner)
  {
    forall p | LiveAt(e.children[k], p, owner).Some? ensures Holds(e.children[k], d, p, owner) {
      LiveBelow(e, k, p, owner);
      var kp := [k] + p;
      assert kp[1..] == p && Holds(e, c, kp, owner);
      forall q | p < q ensures kp < [k] + q && LiveAt(e, [k] + q, owner) == LiveAt(e.children[k], q, owner) {
        LiveBelow(e, k, q, owner);
      }
    }
  }

  lemma {:induction false} ExportableChild(e: Entry, c: Ctx, names: seq<string>, owner: string, b: nat, k: string)
    requires Exportable(e, c, names, owner, b) && k in e.children
    ensures b > 0 && ChildCtx(c, k).Some?
    ensures var d := ChildCtx(c, k).value;
            Exportable(e.children[k], d, Below(d, names, k), owner, b - 1) && (d.level == 0 || d.level == c.level + 1)
  {
    assert At(e, []).Some?;
    var d := ChildCtx(c, k).value;
    ClosedChild(e, c, names, owner, k, d);
    ShapedChild(e, c, owner, k, d);
    forall p | At(e.children[k], p).Some? ensures |p| < b - 1 {
      LiveBelow(e, k, p, owner);
      assert |[k] + p| < b;
    }
  }

  /** Down the key levels of a list. */
  lemma {:induction false} ExportableElement(e: Entry, c: Ctx, names: seq<string>, owner: string, b: nat, p: Path)
    requires Exportable(e, c, names, owner, b) && c.schema.Container? && At(e, p).Some? && c.level + |p| <= |KeyNames(c)|
    ensures |p| < b && Exportable(At(e, p).value, Ctx(c.schema, c.level + |p|), names + p, owner, b - |p|)
    decreases p
  {
    if p == [] {
      assert names + p == names;
    } else {
      ExportableChild(e, c, names, owner, b, p[0]);
      var d := Ctx(c.schema, c.level + 1);
      ExportableElement(e.children[p[0]], d, names + [p[0]], owner, b - 1, p[1..]);
      assert names + [p[0]] + p[1..] == names + p;
    }
  }

  // ---------------------------------------------------------------- what an export must be

  predicate IsList(c: Ctx) {
    c.level == 0 && KeyNames(c) != []
  }

  /** Only list elements share a name. */
  predicate Unique(c: Ctx, els: seq<Element>) {
    forall i, j | 0 <= i < j < |els| && els[i].name == els[j].name ::
      ChildCtx(c, els[i].name).Some? && IsList(ChildCtx(c, els[i].name).value)
  }

  /** The value several elements of one place give the path q; a later one wins. */
  function ListContent(c: Ctx, els: seq<Element>, q: Path): Option<Value> {
    if els == [] then None
    else
      var mine := Content(c, els[|els| - 1], q);
      if mine.Some? then mine else ListContent(c, els[..|els| - 1], q)
  }

  ghost predicate Represents(e: Entry, c: Ctx, owner: string, els: seq<Element>) {
    forall q :: ListContent(c, els, q) == LiveAt(e, q, owner)
  }

  ghost predicate Wellformed(c: Ctx, name: string, els: seq<Element>) {
    && (forall i | 0 <= i < |els| ::
          els[i].name == name && Importable(c, els[i]) && Unique(ContentCtx(c), els[i].childs))
    && (IsList(c) || |els| <= 1)
  }

  ghost predicate Exported(e: Entry, c: Ctx, name: string, owner: string, els: seq<Element>) {
    && Wellformed(c, name, els)
    && Represents(e, c, owner, els)
    && (els != [] ==> exists q :: LiveAt(e, q, owner).Some?)
  }

  // ---------------------------------------------------------------- children of a container

  ghost predicate ChildsNamed(c: Ctx, childs: seq<Element>, done: set<string>) {
    && (forall i | 0 <= i < |childs| ::
          && childs[i].name in done && ChildCtx(c, childs[i].name).Some?
          && Importable(ChildCtx(c, childs[i].name).value, childs[i]))
    && Unique(c, childs)
  }

  ghost predicate ChildsRepresent(e: Entry, c: Ctx, owner: string, childs: seq<Element>, done: set<string>) {
    && (forall q | q != [] :: Contents(c, childs, q) == if q[0] in done then LiveAt(e, q, owner) else None)
    && (childs != [] ==> exists q :: q != [] && LiveAt(e, q, owner).Some?)
  }

  lemma {:induction false} ContentsAppend(c: Ctx, a: seq<Element>, b: seq<Element>, k: string, d: Ctx, q: Path)
    requires ChildCtx(c, k) == Some(d) && q != [] && forall i | 0 <= i < |b| :: b[i].name == k
    ensures Contents(c, a + b, q) ==
            if q[0] == k && ListContent(d, b, q[1..]).Some? then ListContent(d, b, q[1..]) else Contents(c, a, q)
    decreases |b|
  {
    if b == [] {
      assert a + b == a;
    } else {
      var front, x := b[..|b| - 1], b[|b| - 1];
      ContentsAppend(c, a, front, k, d, q);
      ContentsSnoc(c, a + front, x, q);
      assert a + front + [x] == a + b;
    }
  }

  lemma {:induction false} ChildNamed(c: Ctx, childs: seq<Element>, done: set<string>, k: string, d: Ctx, els: seq<Element>)
    requires ChildsNamed(c, childs, done) && k !in done && ChildCtx(c, k) == Some(d) && Wellformed(d, k, els)
    ensures ChildsNamed(c, childs + els, done + {k})
  {
    var all := childs + els;
    forall i | 0 <= i < |all|
      ensures all[i].name in done + {k} && ChildCtx(c, all[i].name).Some? && Importable(ChildCtx(c, all[i].name).value, all[i])
    {
      assert i >= |childs| ==> all[i] == els[i - |childs|];
    }
    assert forall m | 0 <= m < |childs| :: all[m] == childs[m] && all[m].name in done;
    forall i, j | 0 <= i < j < |all| && all[i].name == all[j].name
      ensures ChildCtx(c, all[i].name).Some? && IsList(ChildCtx(c, all[i].name).value)
    {
      if j < |childs| {
        assert all[i] == childs[i] && all[j] == childs[j];
      } else {
        assert all[j] == els[j - |childs|];
        assert i >= |childs| ==> all[i] == els[i - |childs|];
      }
    }
  }

  lemma {:induction false} ChildRepresented(e: Entry, c: Ctx, owner: string, childs: seq<Element>, done: set<string>, k: string, d: Ctx, els: seq<Element>)
    requires ChildsRepresent(e, c, owner, childs, done) && k !in done && k in e.children && ChildCtx(c, k) == Some(d)
    requires Exported(e.children[k], d, k, owner, els)
    ensures ChildsRepresent(e, c, owner, childs + els, done + {k})
  {
    forall q | q != [] ensures Contents(c, childs + els, q) == if q[0] in done + {k} then LiveAt(e, q, owner) else None {
      assert Contents(c, childs, q) == if q[0] in done then LiveAt(e, q, owner) else None;
      ChildContents(e, c, owner, childs, k, d, els, q);
    }
    if els != [] {
      LiveInChild(e, k, owner);
    }
  }

  lemma {:induction false} ChildContents(e: Entry, c: Ctx, owner: string, childs: seq<Element>, k: string, d: Ctx, els: seq<Element>, q: Path)
    requires q != [] && k in e.children && ChildCtx(c, k) == Some(d) && (q[0] == k ==> Contents(c, childs, q).None?)
    requires (forall i | 0 <= i < |els| :: els[i].name == k) && Represents(e.children[k], d, owner, els)
    ensures Contents(c, childs + els, q) == if q[0] == k then LiveAt(e, q, owner) else Contents(c, childs, q)
  {
    ContentsAppend(c, childs, els, k, d, q);
    if q[0] == k {
      assert ListContent(d, els, q[1..]) == LiveAt(e.children[k], q[1..], owner);
    }
  }

  lemma {:induction false} LiveInChild(e: Entry, k: string, owner: string)
    requires k in e.children && exists q :: LiveAt(e.children[k], q, owner).Some?
    ensures exists q :: q != [] && LiveAt(e, q, owner).Some?
  {
    var q :| LiveAt(e.children[k], q, owner).Some?;
    LiveBelow(e, k, q, owner);
    assert [k] + q != [];
  }

  lemma {:induction false} NothingRepresented(e: Entry, c: Ctx, owner: string)
    ensures ChildsNamed(c, [], {}) && ChildsRepresent(e, c, owner, [], {})
  {
  }

  /** All children have been exported: the element stands for the owner's content. */
  lemma {:induction false} PlainContent(e: Entry, c: Ctx, names: seq<string>, name: string, owner: string, b: nat, childs: seq<Element>, q: Path)
    requires Exportable(e, c, names, owner, b) && !IsList(c) && (c.schema.Container? ==> AtContent(c))
    requires ChildsRepresent(e, c, owner, childs, e.children.Keys)
    requires LiveAt(e, [], owner).Some? || childs != []
    ensures Content(c, Element(name, childs, LiveAt(e, [], owner)), q) == LiveAt(e, q, owner)
  {
    var el := Element(name, childs, LiveAt(e, [], owner));
    if LiveAt(e, [], owner).Some? {
      assert Holds(e, c, [], owner);
      assert c.schema.Container? ==> childs == [];
    }
    if !c.schema.Container? {
      assert e.children == map[] by {
        assert forall k | k in e.children :: ChildCtx(c, k).Some?;
      }
      assert q != [] ==> At(e, q).None?;
      assert childs == [];
    } else {
      assert KeyTexts(c, el) == [] && q[0..] == q;
      assert ContentCtx(c) == c;
      assert q != [] && q[0] !in e.children ==> LiveAt(e, q, owner).None?;
    }
  }

  lemma {:induction false} PlainExported(e: Entry, c: Ctx, names: seq<string>, name: string, owner: string, b: nat, childs: seq<Element>)
    requires Exportable(e, c, names, owner, b) && !IsList(c) && (c.schema.Container? ==> AtContent(c))
    requires ChildsNamed(c, childs, e.children.Keys) && ChildsRepresent(e, c, owner, childs, e.children.Keys)
    requires LiveAt(e, [], owner).Some? || childs != []
    ensures Exported(e, c, name, owner, [Element(name, childs, LiveAt(e, [], owner))])
  {
    var el := Element(name, childs, LiveAt(e, [], owner));
    forall q ensures ListContent(c, [el], q) == LiveAt(e, q, owner) {
      PlainContent(e, c, names, name, owner, b, childs, q);
    }
    assert c.schema.Container? ==> ContentCtx(c) == c && MissingKeys(c) == [];
    assert c.schema.Container? ==> Importable(c, el);
  }

  lemma {:induction false} NothingExported(e: Entry, c: Ctx, names: seq<string>, name: string, owner: string, b: nat)
    requires Exportable(e, c, names, owner, b)
    requires ChildsRepresent(e, c, owner, [], e.children.Keys) && LiveAt(e, [], owner).None?
    ensures Exported(e, c, name, owner, [])
  {
    forall q ensures LiveAt(e, q, owner).None? {
      assert q != [] && q[0] in e.children ==> Contents(c, [], q) == LiveAt(e, q, owner);
    }
  }

  // ---------------------------------------------------------------- list elements

  /** A value in the content comes from one of the elements. */
  lemma {:induction false} ContentsFound(c: Ctx, els: seq<Element>, q: Path) returns (i: nat)
    requires Contents(c, els, q).Some?
    ensures i < |els| && q != [] && els[i].name == q[0] && ChildCtx(c, q[0]).Some?
    ensures Content(ChildCtx(c, q[0]).value, els[i], q[1..]) == Contents(c, els, q)
    decreases |els|
  {
    var x := els[|els| - 1];
    if OneContent(c, x, q).Some? {
      i := |els| - 1;
    } else {
      i := ContentsFound(c, els[..|els| - 1], q);
    }
  }

  /** A child that gives its own place a value is a leaf, or an empty presence container. */
  lemma {:induction false} ValueHere(d: Ctx, x: Element, v: Value)
    requires d.level == 0 && Content(d, x, []) == Some(v) && v != EMPTY
    ensures !IsList(d) && TvValue(x) == v
  {
    assert |KeyTexts(d, x)| == |KeyNames(d)|;
    assert !d.schema.Container? ==> SchemaKeys(d.schema) == [];
  }

  lemma {:induction false} SingleElement(c: Ctx, els: seq<Element>, i: nat, d: Ctx)
    requires Unique(c, els) && i < |els| && ChildCtx(c, els[i].name) == Some(d) && !IsList(d)
    ensures GetElement(els, els[i].name) == Some(els[i])
  {
    var r := GetElement(els, els[i].name).value;
    var j :| 0 <= j < |els| && els[j] == r;
    assert j < i ==> els[j].name != els[i].name;
    assert i < j ==> els[j].name != els[i].name;
  }

  /** A key leaf of an exported element is found again, with the name of its key level. */
  lemma {:induction false} KeyFound(c: Ctx, el: Element, k: string, name: string)
    requires AtContent(c) && Unique(c, el.childs) && Contents(c, el.childs, [k]) == Some(KeyValue(c.schema, k, name))
    ensures GetElement(el.childs, k).Some? && KeyText(el, k) == name
  {
    var v := KeyValue(c.schema, k, name);
    var i := ContentsFound(c, el.childs, [k]);
    var d := ChildCtx(c, k).value;
    assert [k][1..] == [];
    assert d == Ctx(c.schema.children[k], 0);
    if v == EMPTY {
      assert d.schema.Field?;
    } else {
      ValueHere(d, el.childs[i], v);
    }
    assert SchemaKeys(d.schema) == [] || d.schema.Container?;
    SingleElement(c, el.childs, i, d);
  }

  /** The export of the entry behind the key levels p carries all its keys. */
  lemma {:induction false} KeysFound(n: Entry, c: Ctx, p: Path, owner: string, b: nat, x: Element, last: string)
    requires IsList(c) && c.schema.Container? && |p| == |KeyNames(c)|
    requires Exportable(n, Ctx(c.schema, |p|), p, owner, b) && Exported(n, Ctx(c.schema, |p|), last, owner, [x])
    ensures HasKeys(c, x) && KeyTexts(c, x) == p && x.childs != []
  {
    var inside := Ctx(c.schema, |p|);
    var q :| LiveAt(n, q, owner).Some?;
    forall i | 0 <= i < |p| ensures GetElement(x.childs, KeyNames(c)[i]).Some? && KeyText(x, KeyNames(c)[i]) == p[i] {
      var k := KeyNames(c)[i];
      assert KeyNames(inside) == KeyNames(c) && IsElement(inside, p);
      ElementKeys(inside, p, [k]);
      assert KeyLeafAt(inside, p, q, [k]) == Some(KeyValue(c.schema, k, p[i]));
      assert LiveAt(n, [k], owner) == Some(KeyValue(c.schema, k, p[i]));
      assert ListContent(inside, [x], [k]) == LiveAt(n, [k], owner);
      InnerContent(inside, x, [k]);
      assert [x][0] == x;
      KeyFound(inside, x, k, p[i]);
    }
    assert GetElement(x.childs, KeyNames(c)[0]).Some?;
    assert KeyTexts(c, x) == p;
  }

  /** Below its last key level an element's content is its children's. */
  lemma {:induction false} InnerContent(c: Ctx, x: Element, q: Path)
    requires AtContent(c) && c.level > 0
    ensures ListContent(c, [x], q) == Contents(c, x.childs, q) && ContentCtx(c) == c
  {
    assert KeyTexts(c, x) == [] && q[0..] == q;
    assert ListContent(c, [x], q) == Content(c, x, q);
  }

  lemma {:induction false} LiveDown(e: Entry, p: Path, q: Path, owner: string)
    requires At(e, p).Some? && p <= q
    ensures LiveAt(e, q, owner) == LiveAt(At(e, p).value, q[|p|..], owner)
    decreases p
  {
    if p == [] {
      assert q[0..] == q;
    } else {
      LiveDown(e.children[p[0]], p[1..], q[1..], owner);
      assert q[1..][|p[1..]|..] == q[|p|..];
    }
  }

  /** The element of the entry behind p stands for the owner's content below p. */
  lemma {:induction false} ElementContent(e: Entry, c: Ctx, p: Path, owner: string, b: nat, x: Element, last: string, name: string, q: Path)
    requires IsList(c) && c.schema.Container? && |p| == |KeyNames(c)| && At(e, p).Some?
    requires Exportable(At(e, p).value, Ctx(c.schema, |p|), p, owner, b)
    requires Exported(At(e, p).value, Ctx(c.schema, |p|), last, owner, [x])
    ensures Content(c, x.(name := name), q) == if p <= q then LiveAt(e, q, owner) else None
  {
    var el := x.(name := name);
    KeysFound(At(e, p).value, c, p, owner, b, x, last);
    assert KeyTexts(c, el) == KeyTexts(c, x);
    if p <= q {
      LiveDown(e, p, q, owner);
      InnerContent(Ctx(c.schema, |p|), x, q[|p|..]);
    }
  }

  lemma {:induction false} ElementImportable(n: Entry, c: Ctx, p: Path, owner: string, b: nat, x: Element, last: string, name: string)
    requires IsList(c) && c.schema.Container? && |p| == |KeyNames(c)|
    requires Exportable(n, Ctx(c.schema, |p|), p, owner, b) && Exported(n, Ctx(c.schema, |p|), last, owner, [x])
    ensures Importable(c, x.(name := name)) && Unique(ContentCtx(c), x.childs)
  {
    KeysFound(n, c, p, owner, b, x, last);
    assert [x][0] == x && ContentCtx(Ctx(c.schema, |p|)) == ContentCtx(c);
    assert Importable(Ctx(c.schema, |p|), x);
    assert HasKeys(c, x.(name := name));
  }

  ghost predicate ListRepresents(e: Entry, c: Ctx, owner: string, els: seq<Element>, done: seq<Path>) {
    && (forall q :: ListContent(c, els, q) ==
                    if |q| >= |KeyNames(c)| && q[..|KeyNames(c)|] in done then LiveAt(e, q, owner) else None)
    && (els != [] ==> exists q :: LiveAt(e, q, owner).Some?)
  }

  lemma {:induction false} ListContentSnoc(c: Ctx, els: seq<Element>, el: Element, q: Path)
    ensures ListContent(c, els + [el], q) == if Content(c, el, q).Some? then Content(c, el, q) else ListContent(c, els, q)
  {
    assert (els + [el])[..|els|] == els;
  }

  /** Something is live below the list if something is live below one of its elements. */
  lemma {:induction false} LiveUp(e: Entry, p: Path, owner: string)
    requires At(e, p).Some? && exists q :: LiveAt(At(e, p).value, q, owner).Some?
    ensures exists q :: LiveAt(e, q, owner).Some?
  {
    var q :| LiveAt(At(e, p).value, q, owner).Some?;
    LiveDown(e, p, p + q, owner);
    assert (p + q)[|p|..] == q;
  }

  lemma {:induction false} ListStep(e: Entry, c: Ctx, owner: string, els: seq<Element>, done: seq<Path>, p: Path, b: nat, x: Element, last: string, name: string)
    requires IsList(c) && c.schema.Container? && |p| == |KeyNames(c)| && At(e, p).Some?
    requires Exportable(At(e, p).value, Ctx(c.schema, |p|), p, owner, b)
    requires Exported(At(e, p).value, Ctx(c.schema, |p|), last, owner, [x])
    requires ListRepresents(e, c, owner, els, done)
    ensures ListRepresents(e, c, owner, els + [x.(name := name)], done + [p])
  {
    forall q ensures Content(c, x.(name := name), q) == if p <= q then LiveAt(e, q, owner) else None {
      ElementContent(e, c, p, owner, b, x, last, name, q);
    }
    LiveUp(e, p, owner);
    ListJoin(e, c, owner, els, done, p, x.(name := name));
  }

  lemma {:induction false} ListJoin(e: Entry, c: Ctx, owner: string, els: seq<Element>, done: seq<Path>, p: Path, el: Element)
    requires |p| == |KeyNames(c)| && ListRepresents(e, c, owner, els, done) && exists q :: LiveAt(e, q, owner).Some?
    requires forall q :: Content(c, el, q) == if p <= q then LiveAt(e, q, owner) else None
    ensures ListRepresents(e, c, owner, els + [el], done + [p])
  {
    forall q ensures ListContent(c, els + [el], q) ==
                     if |q| >= |p| && q[..|p|] in done + [p] then LiveAt(e, q, owner) else None
    {
      assert Content(c, el, q) == if p <= q then LiveAt(e, q, owner) else None;
      assert ListContent(c, els, q) == if |q| >= |p| && q[..|p|] in done then LiveAt(e, q, owner) else None;
      ListJoinAt(e, c, owner, els, done, p, el, q);
    }
  }

  lemma {:induction false} ListJoinAt(e: Entry, c: Ctx, owner: string, els: seq<Element>, done: seq<Path>, p: Path, el: Element, q: Path)
    requires Content(c, el, q) == if p <= q then LiveAt(e, q, owner) else None
    requires ListContent(c, els, q) == if |q| >= |p| && q[..|p|] in done then LiveAt(e, q, owner) else None
    ensures ListContent(c, els + [el], q) == if |q| >= |p| && q[..|p|] in done + [p] then LiveAt(e, q, owner) else None
  {
    ListContentSnoc(c, els, el, q);
    assert p <= q <==> |q| >= |p| && q[..|p|] == p;
  }

  lemma {:induction false} ListSkip(e: Entry, c: Ctx, owner: string, els: seq<Element>, done: seq<Path>, p: Path)
    requires |p| == |KeyNames(c)| && At(e, p).Some? && ListRepresents(e, c, owner, els, done)
    requires forall q :: LiveAt(At(e, p).value, q, owner).None?
    ensures ListRepresents(e, c, owner, els, done + [p])
  {
    forall q | |q| >= |p| && q[..|p|] == p ensures LiveAt(e, q, owner).None? {
      LiveDown(e, p, q, owner);
    }
  }

  /** Nothing is live above the last key level. */
  lemma {:induction false} ListComplete(e: Entry, c: Ctx, names: seq<string>, name: string, owner: string, b: nat, els: seq<Element>, ps: seq<Path>)
    requires Exportable(e, c, names, owner, b) && IsList(c) && c.schema.Container?
    requires Wellformed(c, name, els) && ListRepresents(e, c, owner, els, ps)
    requires forall p :: p in ps <==> |p| == |KeyNames(c)| && At(e, p).Some?
    ensures Exported(e, c, name, owner, els)
  {
    var m := |KeyNames(c)|;
    forall q | LiveAt(e, q, owner).Some? ensures |q| >= m && q[..m] in ps {
      assert Holds(e, c, q, owner);
      if |q| < m {
        PassKeyLevels(c, q);
      } else {
        AtFront(e, q, m);
      }
    }
  }

  lemma {:induction false} AtFront(e: Entry, q: Path, m: nat)
    requires At(e, q).Some? && m <= |q|
    ensures At(e, q[..m]).Some?
    decreases q
  {
    if m > 0 {
      AtFront(e.children[q[0]], q[1..], m - 1);
      assert q[..m][1..] == q[1..][..m - 1];
    }
  }

  // ---------------------------------------------------------------- the export walk

  lemma {:induction false} KeysListed(keys: seq<string>)
    ensures Alphabetical(keys) == [] <==> keys == []
  {
    AlphabeticalSorts(keys);
    if keys != [] {
      assert keys[0] in Alphabetical(keys);
    }
  }

  /** Exports one entry: a list as one element for each of its elements, anything else as one. */
  method ExportLevel(e: Entry, c: Ctx, ghost names: seq<string>, name: string, owner: string, ghost b: nat) returns (els: seq<Element>)
    requires Exportable(e, c, names, owner, b) && (c.level == 0 || AtContent(c))
    ensures Exported(e, c, name, owner, els)
    decreases b, 1, 0
  {
    KeysListed(Keys(e));
    if Keys(e) != [] {
      els := ExportList(e, c, names, name, owner, b);
    } else {
      els := ExportPlain(e, c, names, name, owner, b);
    }
  }

  method ExportPlain(e: Entry, c: Ctx, ghost names: seq<string>, name: string, owner: string, ghost b: nat) returns (els: seq<Element>)
    requires Exportable(e, c, names, owner, b) && !IsList(c) && (c.schema.Container? ==> AtContent(c))
    ensures Exported(e, c, name, owner, els)
    decreases b, 0, 2
  {
    var childs := ExportChilds(e, c, names, owner, b);
    var lv := LiveAt(e, [], owner);
    if lv.Some? || childs != [] {
      PlainExported(e, c, names, name, owner, b, childs);
      return [Element(name, childs, lv)];
    }
    NothingExported(e, c, names, name, owner, b);
    return [];
  }

  /** The children of a container, in any order. */
  method ExportChilds(e: Entry, c: Ctx, ghost names: seq<string>, owner: string, ghost b: nat) returns (childs: seq<Element>)
    requires Exportable(e, c, names, owner, b) && !IsList(c) && (c.schema.Container? ==> AtContent(c))
    ensures ChildsNamed(c, childs, e.children.Keys) && ChildsRepresent(e, c, owner, childs, e.children.Keys)
    decreases b, 0, 1
  {
    childs := [];
    var todo := e.children.Keys;
    NothingRepresented(e, c, owner);
    assert e.children.Keys - todo == {};
    while todo != {}
      invariant todo <= e.children.Keys
      invariant ChildsNamed(c, childs, e.children.Keys - todo) && ChildsRepresent(e, c, owner, childs, e.children.Keys - todo)
      decreases todo
    {
      var k :| k in todo;
      var more := ExportChild(e, c, names, owner, b, k);
      ghost var done := e.children.Keys - todo;
      ChildNamed(c, childs, done, k, ChildCtx(c, k).value, more);
      ChildRepresented(e, c, owner, childs, done, k, ChildCtx(c, k).value, more);
      childs := childs + more;
      todo := todo - {k};
      assert e.children.Keys - todo == done + {k};
    }
    assert e.children.Keys - todo == e.children.Keys;
  }

  method ExportChild(e: Entry, c: Ctx, ghost names: seq<string>, owner: string, ghost b: nat, k: string) returns (more: seq<Element>)
    requires Exportable(e, c, names, owner, b) && !IsList(c) && (c.schema.Container? ==> AtContent(c)) && k in e.children
    ensures ChildCtx(c, k).Some? && Exported(e.children[k], ChildCtx(c, k).value, k, owner, more)
    decreases b, 0, 0
  {
    ExportableChild(e, c, names, owner, b, k);
    var d := ChildCtx(c, k).value;
    more := ExportLevel(e.children[k], d, Below(d, names, k), k, owner, b - 1);
  }

  /** The elements exported so far, followed by the export of one more entry. */
  function WithElement(els: seq<Element>, one: seq<Element>, name: string): seq<Element> {
    if one == [] then els else els + [one[0].(name := name)]
  }

  lemma {:induction false} ListAdvance(e: Entry, c: Ctx, name: string, owner: string, els: seq<Element>, done: seq<Path>, p: Path, b: nat,
                    one: seq<Element>, last: string)
    requires IsList(c) && c.schema.Container? && |p| == |KeyNames(c)| && At(e, p).Some?
    requires Exportable(At(e, p).value, Ctx(c.schema, |p|), p, owner, b)
    requires Exported(At(e, p).value, Ctx(c.schema, |p|), last, owner, one)
    requires Wellformed(c, name, els) && ListRepresents(e, c, owner, els, done)
    ensures Wellformed(c, name, WithElement(els, one, name))
    ensures ListRepresents(e, c, owner, WithElement(els, one, name), done + [p])
  {
    var inside, n := Ctx(c.schema, |p|), At(e, p).value;
    if one == [] {
      assert forall q :: ListContent(inside, one, q) == LiveAt(n, q, owner);
      ListSkip(e, c, owner, els, done, p);
    } else {
      assert one == [one[0]];
      ListStep(e, c, owner, els, done, p, b, one[0], last, name);
      ElementImportable(n, c, p, owner, b, one[0], last, name);
      WellformedSnoc(c, name, els, one[0].(name := name));
    }
  }

  lemma {:induction false} WellformedSnoc(c: Ctx, name: string, els: seq<Element>, el: Element)
    requires IsList(c) && Wellformed(c, name, els)
    requires el.name == name && Importable(c, el) && Unique(ContentCtx(c), el.childs)
    ensures Wellformed(c, name, els + [el])
  {
  }

  lemma {:induction false} NoElements(e: Entry, c: Ctx, name: string, owner: string)
    ensures Wellformed(c, name, []) && ListRepresents(e, c, owner, [], [])
  {
  }

  method ExportList(e: Entry, c: Ctx, ghost names: seq<string>, name: string, owner: string, ghost b: nat) returns (els: seq<Element>)
    requires Exportable(e, c, names, owner, b) && c.level == 0 && Keys(e) != [] && IsList(c) && c.schema.Container?
    ensures Exported(e, c, name, owner, els)
    decreases b, 0, 3
  {
    var children := KeyLevels.GetListChilds(e);
    ListedElements(e, c, children.value);
    els := ExportElements(e, c, names, name, owner, b, children.value);
    ListComplete(e, c, names, name, owner, b, els, children.value);
  }

  method ExportElements(e: Entry, c: Ctx, ghost names: seq<string>, name: string, owner: string, ghost b: nat, ps: seq<Path>)
    returns (els: seq<Element>)
    requires Exportable(e, c, names, owner, b) && c.level == 0 && IsList(c) && c.schema.Container?
    requires forall p :: p in ps <==> |p| == |KeyNames(c)| && At(e, p).Some?
    ensures Wellformed(c, name, els) && ListRepresents(e, c, owner, els, ps)
    decreases b, 0, 2
  {
    els := [];
    NoElements(e, c, name, owner);
    assert ps[..0] == [];
    for i := 0 to |ps|
      invariant Wellformed(c, name, els) && ListRepresents(e, c, owner, els, ps[..i])
    {
      assert ps[i] in ps && ps[..i + 1] == ps[..i] + [ps[i]];
      els := ExportOneMore(e, c, names, name, owner, b, els, ps[..i], ps[i]);
    }
    assert ps[..|ps|] == ps;
  }

  method ExportOneMore(e: Entry, c: Ctx, ghost names: seq<string>, name: string, owner: string, ghost b: nat,
                       els: seq<Element>, ghost done: seq<Path>, p: Path) returns (more: seq<Element>)
    requires Exportable(e, c, names, owner, b) && c.level == 0 && IsList(c) && c.schema.Container?
    requires |p| == |KeyNames(c)| && At(e, p).Some? && Wellformed(c, name, els) && ListRepresents(e, c, owner, els, done)
    ensures Wellformed(c, name, more) && ListRepresents(e, c, owner, more, done + [p])
    decreases b, 0, 1
  {
    var one := ExportElement(e, c, names, p, owner, b);
    ListAdvance(e, c, name, owner, els, done, p, b - |p|, one, p[|p| - 1]);
    more := WithElement(els, one, name);
  }

  /** Exports the entry behind the key levels p. */
  method ExportElement(e: Entry, c: Ctx, ghost names: seq<string>, p: Path, owner: string, ghost b: nat) returns (one: seq<Element>)
    requires Exportable(e, c, names, owner, b) && c.level == 0 && IsList(c) && c.schema.Container?
    requires |p| == |KeyNames(c)| && At(e, p).Some?
    ensures |p| <= b && Exportable(At(e, p).value, Ctx(c.schema, |p|), p, owner, b - |p|)
    ensures Exported(At(e, p).value, Ctx(c.schema, |p|), p[|p| - 1], owner, one)
    decreases b, 0, 0
  {
    ExportableElement(e, c, names, owner, b, p);
    assert names + p == p;
    one := ExportLevel(At(e, p).value, Ctx(c.schema, |p|), p, p[|p| - 1], owner, b - |p|);
  }

  lemma {:induction false} ListedElements(e: Entry, c: Ctx, ps: seq<Path>)
    requires Typed(e, c) && c.level == 0
    requires KeyLevels.ListsLevel(e, Alphabetical(Keys(e)), map[], |Alphabetical(Keys(e))|, ps)
    ensures Alphabetical(Keys(e)) == KeyNames(c)
    ensures forall p :: p in ps <==> |p| == |KeyNames(c)| && At(e, p).Some?
  {
    assert Keys(e) == SchemaKeys(c.schema);
    assert forall p :: KeyLevels.Agrees(KeyNames(c), map[], p);
  }

  // ---------------------------------------------------------------- persisted intents

  datatype Intent = Intent(
    name: string, root: Option<Element>, priority: int, nonRevertive: bool, explicitDeletes: seq<Path>, orphan: bool)

  /** The tree an export starts from. */
  ghost predicate RootOk(e: Entry, c: Ctx, owner: string) {
    Typed(e, c) && Closed(e, c, [], owner) && Shaped(e, c, owner) && c.level == 0 && KeyNames(c) == []
  }

  /** The persisted root stands for exactly the owner's content. */
  ghost predicate Persists(e: Entry, c: Ctx, owner: string, root: Option<Element>) {
    match root
    case None => forall q :: LiveAt(e, q, owner).None?
    case Some(el) => Importable(c, el) && forall q :: Content(c, el, q) == LiveAt(e, q, owner)
  }

  ghost function Depth(ps: set<Path>): (b: nat)
    ensures forall p | p in ps :: |p| < b
  {
    if ps == {} then 0
    else
      var p :| p in ps;
      var b := Depth(ps - {p});
      if |p| < b then b else |p| + 1
  }

  lemma {:induction false} HasDepth(e: Entry) returns (b: nat)
    ensures Bounded(e, b)
  {
    b := Depth(Southbound.NodePaths(e));
    forall p | At(e, p).Some? ensures |p| < b {
      Southbound.NodePathsAt(e, p);
    }
  }

  /** Exports an owner: None, "intent not present", exactly when it has neither live content nor
      explicit deletes. */
  method TreeExport(e: Entry, c: Ctx, owner: string, priority: int, nonRevertive: bool, explicitDeletes: seq<Path>, orphan: bool)
    returns (r: Option<Intent>)
    requires RootOk(e, c, owner)
    ensures r.None? <==> (forall q :: LiveAt(e, q, owner).None?) && explicitDeletes == []
    ensures r.Some? ==> Persists(e, c, owner, r.value.root)
    ensures r.Some? ==> r.value == Intent(owner, r.value.root, priority, nonRevertive, explicitDeletes, orphan)
  {
    ghost var b := HasDepth(e);
    var els := ExportLevel(e, c, [], "root", owner, b);
    assert Represents(e, c, owner, els);
    if els == [] {
      assert forall q :: ListContent(c, els, q) == LiveAt(e, q, owner);
      if explicitDeletes == [] {
        return None;
      }
      return Some(Intent(owner, None, priority, nonRevertive, explicitDeletes, orphan));
    }
    assert els == [els[0]];
    assert forall q :: ListContent(c, els, q) == Content(c, els[0], q);
    return Some(Intent(owner, Some(els[0]), priority, nonRevertive, explicitDeletes, orphan));
  }

  /** The variant an import creates. */
  function Imports(i: Intent, isNew: bool): L.LeafEntry {
    L.LeafEntry(i.name, i.priority, EMPTY, isNew, false, false, false, false)
  }

  /** Imports a persisted intent; an intent of explicit deletes alone has no root and no content. */
  method ImportIntent(e: Entry, c: Ctx, i: Intent, isNew: bool) returns (r: Option<Entry>)
    requires c.level == 0
    ensures r == if i.root.None? then Some(e) else Imported(e, c, i.root.value, Imports(i, isNew))
  {
    if i.root.None? {
      return Some(e);
    }
    r := ImportElement(e, c, i.root.value, Imports(i, isNew));
  }

  /** Persistence round trip: whatever tree an intent was exported from, importing it into a
      tree where the owner holds nothing succeeds, gives the owner exactly the exported
      content, at the intent's priority, and leaves all other owners as they were. */
  lemma {:induction false} PersistRoundTrip(e: Entry, c: Ctx, i: Intent, isNew: bool, into: Entry, q: Path, o: string)
    requires c.level == 0 && Persists(e, c, i.name, i.root) && OwnersUnique(into) && i.name != DEFAULT && o != DEFAULT
    requires forall p :: VariantAt(into, p, i.name).None?
    ensures i.root.Some? ==> Imported(into, c, i.root.value, Imports(i, isNew)).Some?
    ensures var after := if i.root.None? then into else Imported(into, c, i.root.value, Imports(i, isNew)).value;
            && LiveAt(after, q, i.name) == LiveAt(e, q, i.name)
            && (VariantAt(after, q, i.name).Some? <==> LiveAt(e, q, i.name).Some?)
            && (VariantAt(after, q, i.name).Some? ==> VariantAt(after, q, i.name).value.priority == i.priority)
            && (o != i.name ==> VariantAt(after, q, o) == VariantAt(into, q, o))
  {
    if i.root.Some? {
      var el, le := i.root.value, Imports(i, isNew);
      ImportSucceeds(into, c, el, le);
      ImportedObserved(into, c, el, le, q, i.name);
      ImportedObserved(into, c, el, le, q, o);
    }
  }
}
