/** The persisted form of an intent: what it stands for, and importing it back
    (pkg/tree/processors/processor_importer.go, pkg/tree/importer/proto/proto_tree_importer.go).
    Key levels are not persisted; import rebuilds them from the key leaves. */
module Persist {
  import opened Base
  import opened Tree
  import opened Paths
  import opened Growth
  import opened Insertion
  import L = Leaves
  import S = LeafStore

  datatype Element = Element(name: string, childs: seq<Element>, leaf: Option<Value>)

  const EMPTY := Value("empty", "")

  /** An element without a value unmarshals to a value of no type. */
  function TvValue(el: Element): Value {
    if el.leaf.Some? then el.leaf.value else Value("", "")
  }

  /** The first child of that name. */
  function GetElement(els: seq<Element>, name: string): (r: Option<Element>)
    ensures r.Some? ==> r.value in els && r.value.name == name
    ensures r.None? <==> forall i | 0 <= i < |els| :: els[i].name != name
  {
    if els == [] then None
    else if els[0].name == name then Some(els[0])
    else
      assert forall i | 1 <= i < |els| :: els[i] == els[1..][i - 1];
      GetElement(els[1..], name)
  }

  // ---------------------------------------------------------------- what an element stands for

  /** The keys an element still has to be placed under. */
  function MissingKeys(c: Ctx): seq<string> {
    if c.level == 0 then KeyNames(c) else []
  }

  /** Where the children of an element belong. */
  function ContentCtx(c: Ctx): Ctx {
    if c.schema.Container? then Ctx(c.schema, |KeyNames(c)|) else c
  }

  predicate HasKeys(c: Ctx, el: Element) {
    forall i | 0 <= i < |MissingKeys(c)| :: GetElement(el.childs, MissingKeys(c)[i]).Some?
  }

  function KeyText(el: Element, k: string): string {
    match GetElement(el.childs, k)
    case None => ""
    case Some(x) => TvValue(x).text
  }

  /** The key levels of an element, read off its key leaves in alphabetical order of the keys. */
  function KeyTexts(c: Ctx, el: Element): seq<string> {
    seq(|MissingKeys(c)|, i requires 0 <= i < |MissingKeys(c)| => KeyText(el, MissingKeys(c)[i]))
  }

  /** The value an element gives the path q below its own place c. */
  function Content(c: Ctx, el: Element, q: Path): Option<Value>
    decreases |q|, 1, 0
  {
    if !c.schema.Container? then (if q == [] then Some(TvValue(el)) else None)
    else
      var names := KeyTexts(c, el);
      if !(names <= q) then None
      else
        var rest := q[|names|..];
        if el.childs == [] then
          (if rest == [] && c.level == 0 && names == [] && c.schema.presence then Some(EMPTY) else None)
        else Contents(ContentCtx(c), el.childs, rest)
  }

  /** The value a list of elements gives the path q below their parent; a later one wins. */
  function Contents(c: Ctx, els: seq<Element>, q: Path): Option<Value>
    decreases |q|, 0, |els|
  {
    if els == [] || q == [] then None
    else
      var x := els[|els| - 1];
      var mine := if x.name == q[0] && ChildCtx(c, x.name).Some? then Content(ChildCtx(c, x.name).value, x, q[1..]) else None;
      if mine.Some? then mine else Contents(c, els[..|els| - 1], q)
  }

  /** Every name is in the schema and no list element lacks a key leaf. */
  predicate Importable(c: Ctx, el: Element)
    decreases el
  {
    c.schema.Container? ==>
      && HasKeys(c, el)
      && forall i | 0 <= i < |el.childs| ::
           && ChildCtx(ContentCtx(c), el.childs[i].name).Some?
           && Importable(ChildCtx(ContentCtx(c), el.childs[i].name).value, el.childs[i])
  }

  // ---------------------------------------------------------------- import

  /** The entry at the end of p, or the one that would be created there. */
  function Walked(e: Entry, c: Ctx, p: Path): Entry
    requires CtxAt(c, p).Some?
    decreases p
  {
    if p == [] then e
    else
      var d := ChildCtx(c, p[0]).value;
      Walked(ChildOrNew(e, d, p[0]), d, p[1..])
  }

  /** Puts n where the walk along p leads. */
  function Planted(e: Entry, c: Ctx, p: Path, n: Entry): Option<Entry> {
    Grow(e, c, p, (x: Entry) => n)
  }

  /** The entry after an element was imported at it; None is an import error. */
  function Imported(e: Entry, c: Ctx, el: Element, le: L.LeafEntry): Option<Entry>
    requires c.level == 0 || AtContent(c)
    decreases el, 1, 0
  {
    if !c.schema.Container? then Some(LeafAdded(e, le.(value := TvValue(el))))
    else if !HasKeys(c, el) then None
    else
      var names := KeyTexts(c, el);
      PassKeyLevels(c, names);
      var at := Walked(e, c, names);
      var filled :=
        if el.childs != [] then ImportedChilds(at, ContentCtx(c), el, |el.childs|, le)
        else Some(Bare(at, c, names, le));
      match filled
      case None => None
      case Some(n) => Planted(e, c, names, n)
  }

  /** An element without children sets a presence container, and creates any other. */
  function Bare(at: Entry, c: Ctx, names: seq<string>, le: L.LeafEntry): Entry {
    if c.schema.Container? && c.level == 0 && names == [] && c.schema.presence then LeafAdded(at, le.(value := EMPTY)) else at
  }

  function ImportedChilds(e: Entry, c: Ctx, el: Element, n: nat, le: L.LeafEntry): Option<Entry>
    requires n <= |el.childs| && AtContent(c)
    decreases el, 0, n
  {
    if n == 0 then Some(e)
    else match ImportedChilds(e, c, el, n - 1, le)
      case None => None
      case Some(m) =>
        var x := el.childs[n - 1];
        match ChildCtx(c, x.name)
        case None => None
        case Some(d) =>
          match Imported(ChildOrNew(m, d, x.name), d, x, le)
          case None => None
          case Some(child) => Some(m.(children := m.children[x.name := child]))
  }

  /** Walking as many names as there are keys passes the key levels. */
  lemma {:induction false} PassKeyLevels(c: Ctx, names: seq<string>)
    requires c.schema.Container? && c.level + |names| <= |KeyNames(c)|
    ensures CtxAt(c, names) == Some(Ctx(c.schema, c.level + |names|))
    decreases |names|
  {
    if names != [] {
      PassKeyLevels(Ctx(c.schema, c.level + 1), names[1..]);
    }
  }

  /** Replacing the entry a walk leads to changes what is observed below it only. */
  lemma {:induction false} GrowObserved(e: Entry, c: Ctx, p: Path, n: Entry, f: Entry -> Entry, q: Path, o: string)
    requires CtxAt(c, p).Some? && o != DEFAULT && Grow(e, c, p, f).Some? && f(Walked(e, c, p)) == n
    ensures VariantAt(Grow(e, c, p, f).value, q, o) ==
            if p <= q then VariantAt(n, q[|p|..], o) else VariantAt(e, q, o)
    ensures OwnersUnique(e) && OwnersUnique(n) ==> OwnersUnique(Grow(e, c, p, f).value)
    decreases p
  {
    if p != [] {
      var d := ChildCtx(c, p[0]).value;
      var child := ChildOrNew(e, d, p[0]);
      var q' := if q == [] then [] else q[1..];
      NewEntryEmpty(d, q', o);
      GrowObserved(child, d, p[1..], n, f, q', o);
      assert q != [] && q[0] == p[0] ==> (p <= q <==> p[1..] <= q') && (p <= q ==> q[|p|..] == q'[|p[1..]|..]);
      ChildReplaced(e, p[0], Grow(child, d, p[1..], f).value, q, o);
    } else {
      assert q[0..] == q;
    }
  }

  lemma {:induction false} WalkedObserved(e: Entry, c: Ctx, p: Path, q: Path, o: string)
    requires CtxAt(c, p).Some? && o != DEFAULT
    ensures VariantAt(Walked(e, c, p), q, o) == VariantAt(e, p + q, o)
    ensures OwnersUnique(e) ==> OwnersUnique(Walked(e, c, p))
    decreases p
  {
    if p == [] {
      assert p + q == q;
    } else {
      var d := ChildCtx(c, p[0]).value;
      NewEntryEmpty(d, p[1..] + q, o);
      WalkedObserved(ChildOrNew(e, d, p[0]), d, p[1..], q, o);
      assert (p + q)[1..] == p[1..] + q;
    }
  }

  /** What importing content does to one owner's variant at one path. */
  predicate After(le: L.LeafEntry, content: Option<Value>, o: string, before: Option<L.LeafEntry>, after: Option<L.LeafEntry>) {
    if o == le.owner && content.Some?
    then
      && after.Some? && after.value.SameUpdate(le.(value := content.value)) && !after.value.delete
      && (after.value.explicitDelete ==> le.explicitDelete || (before.Some? && before.value.explicitDelete))
      && (after.value.onlyIntended ==> le.onlyIntended || (before.Some? && before.value.onlyIntended))
      && (after.value.isNew ==> le.isNew || (before.Some? && before.value.isNew))
    else after == before
  }

  lemma LeafImported(e: Entry, le: L.LeafEntry, v: Value, q: Path, o: string)
    requires OwnersUnique(e) && le.owner != DEFAULT && o != DEFAULT && !le.delete
    ensures OwnersUnique(LeafAdded(e, le.(value := v)))
    ensures After(le, if q == [] then Some(v) else None, o, VariantAt(e, q, o), VariantAt(LeafAdded(e, le.(value := v)), q, o))
  {
    S.AddedPerOwner(e.les, le.(value := v), o);
    S.AddedPerOwner(e.les, le.(value := v), le.owner);
    S.AddedFlags(e.les, le.(value := v));
    assert LeafAdded(e, le.(value := v)).children == e.children;
  }

  ghost predicate Importing(le: L.LeafEntry, o: string) {
    le.owner != DEFAULT && o != DEFAULT && !le.delete
  }

  lemma {:induction false} PlantedObserved(e: Entry, c: Ctx, p: Path, n: Entry, q: Path, o: string)
    requires CtxAt(c, p).Some? && o != DEFAULT && Planted(e, c, p, n).Some?
    ensures VariantAt(Planted(e, c, p, n).value, q, o) == if p <= q then VariantAt(n, q[|p|..], o) else VariantAt(e, q, o)
    ensures OwnersUnique(e) && OwnersUnique(n) ==> OwnersUnique(Planted(e, c, p, n).value)
  {
    GrowObserved(e, c, p, n, (x: Entry) => n, q, o);
  }

  /** The content of an element below its key levels. */
  function Inner(c: Ctx, el: Element, names: seq<string>, rest: Path): Option<Value> {
    if el.childs == [] then
      (if rest == [] && c.schema.Container? && c.level == 0 && names == [] && c.schema.presence then Some(EMPTY) else None)
    else Contents(ContentCtx(c), el.childs, rest)
  }

  /** From the content below the key levels to the content of the element. */
  lemma {:induction false} PlantedAfter(e: Entry, c: Ctx, el: Element, n: Entry, le: L.LeafEntry, q: Path, o: string)
    requires c.schema.Container? && (c.level == 0 || AtContent(c)) && OwnersUnique(e) && o != DEFAULT && OwnersUnique(n)
    requires Planted(e, c, KeyTexts(c, el), n).Some? && CtxAt(c, KeyTexts(c, el)).Some?
    requires KeyTexts(c, el) <= q ==>
               After(le, Inner(c, el, KeyTexts(c, el), q[|KeyTexts(c, el)|..]), o,
                     VariantAt(Walked(e, c, KeyTexts(c, el)), q[|KeyTexts(c, el)|..], o), VariantAt(n, q[|KeyTexts(c, el)|..], o))
    ensures OwnersUnique(Planted(e, c, KeyTexts(c, el), n).value)
    ensures After(le, Content(c, el, q), o, VariantAt(e, q, o), VariantAt(Planted(e, c, KeyTexts(c, el), n).value, q, o))
  {
    var names := KeyTexts(c, el);
    PlantedObserved(e, c, names, n, q, o);
    if names <= q {
      WalkedObserved(e, c, names, q[|names|..], o);
      assert names + q[|names|..] == q;
    }
  }

  lemma {:induction false} BareObserved(at: Entry, c: Ctx, el: Element, names: seq<string>, le: L.LeafEntry, rest: Path, o: string)
    requires OwnersUnique(at) && Importing(le, o) && el.childs == []
    ensures OwnersUnique(Bare(at, c, names, le))
    ensures After(le, Inner(c, el, names, rest), o, VariantAt(at, rest, o), VariantAt(Bare(at, c, names, le), rest, o))
  {
    LeafImported(at, le, EMPTY, rest, o);
  }

  /** Importing overlays the element's content on the owner's and leaves everyone else alone. */
  lemma {:induction false} ImportedObserved(e: Entry, c: Ctx, el: Element, le: L.LeafEntry, q: Path, o: string)
    requires (c.level == 0 || AtContent(c)) && OwnersUnique(e) && Importing(le, o) && Imported(e, c, el, le).Some?
    ensures OwnersUnique(Imported(e, c, el, le).value)
    ensures After(le, Content(c, el, q), o, VariantAt(e, q, o), VariantAt(Imported(e, c, el, le).value, q, o))
    decreases el, 1, 0
  {
    if !c.schema.Container? {
      LeafImported(e, le, TvValue(el), q, o);
    } else {
      var names := KeyTexts(c, el);
      PassKeyLevels(c, names);
      var at, rest := Walked(e, c, names), if names <= q then q[|names|..] else [];
      WalkedObserved(e, c, names, rest, o);
      if el.childs != [] {
        ChildsObserved(at, ContentCtx(c), el, |el.childs|, le, rest, o);
        assert el.childs[..|el.childs|] == el.childs;
        PlantedAfter(e, c, el, ImportedChilds(at, ContentCtx(c), el, |el.childs|, le).value, le, q, o);
      } else {
        BareObserved(at, c, el, names, le, rest, o);
        PlantedAfter(e, c, el, Bare(at, c, names, le), le, q, o);
      }
    }
  }

  /** The value a single element gives the path q below its parent. */
  function OneContent(c: Ctx, x: Element, q: Path): Option<Value> {
    if q != [] && x.name == q[0] && ChildCtx(c, x.name).Some? then Content(ChildCtx(c, x.name).value, x, q[1..]) else None
  }

  lemma ContentsSnoc(c: Ctx, els: seq<Element>, x: Element, q: Path)
    ensures Contents(c, els + [x], q) == if OneContent(c, x, q).Some? then OneContent(c, x, q) else Contents(c, els, q)
  {
    assert (els + [x])[..|els|] == els;
  }

  lemma {:induction false} ChildObserved(m: Entry, c: Ctx, x: Element, child: Entry, le: L.LeafEntry, q: Path, o: string)
    requires OwnersUnique(m) && o != DEFAULT && ChildCtx(c, x.name).Some? && OwnersUnique(child)
    requires var d := ChildCtx(c, x.name).value; var q' := if q == [] then [] else q[1..];
             After(le, Content(d, x, q'), o, VariantAt(ChildOrNew(m, d, x.name), q', o), VariantAt(child, q', o))
    ensures var m' := m.(children := m.children[x.name := child]);
            OwnersUnique(m') && After(le, OneContent(c, x, q), o, VariantAt(m, q, o), VariantAt(m', q, o))
  {
    var d := ChildCtx(c, x.name).value;
    NewEntryEmpty(d, if q == [] then [] else q[1..], o);
    ChildReplaced(m, x.name, child, q, o);
  }

  lemma {:induction false} OneMore(c: Ctx, els: seq<Element>, x: Element, le: L.LeafEntry, q: Path, o: string,
                                   before: Option<L.LeafEntry>, between: Option<L.LeafEntry>, after: Option<L.LeafEntry>)
    requires After(le, Contents(c, els, q), o, before, between) && After(le, OneContent(c, x, q), o, between, after)
    ensures After(le, Contents(c, els + [x], q), o, before, after)
  {
    ContentsSnoc(c, els, x, q);
  }

  lemma {:induction false} ChildImported(m: Entry, c: Ctx, x: Element, d: Ctx, child: Entry, le: L.LeafEntry, q: Path, o: string)
    requires AtContent(c) && OwnersUnique(m) && Importing(le, o) && ChildCtx(c, x.name) == Some(d)
    requires d.level == 0 && Imported(ChildOrNew(m, d, x.name), d, x, le) == Some(child)
    ensures var m' := m.(children := m.children[x.name := child]);
            OwnersUnique(m') && After(le, OneContent(c, x, q), o, VariantAt(m, q, o), VariantAt(m', q, o))
    decreases x, 2, 0
  {
    NewEntryEmpty(d, [], o);
    ImportedObserved(ChildOrNew(m, d, x.name), d, x, le, if q == [] then [] else q[1..], o);
    ChildObserved(m, c, x, child, le, q, o);
  }

  lemma {:induction false} ChildsObserved(e: Entry, c: Ctx, el: Element, n: nat, le: L.LeafEntry, q: Path, o: string)
    requires n <= |el.childs| && AtContent(c) && OwnersUnique(e) && Importing(le, o) && ImportedChilds(e, c, el, n, le).Some?
    ensures OwnersUnique(ImportedChilds(e, c, el, n, le).value)
    ensures After(le, Contents(c, el.childs[..n], q), o, VariantAt(e, q, o), VariantAt(ImportedChilds(e, c, el, n, le).value, q, o))
    decreases el, 0, n
  {
    if n > 0 {
      ChildsObserved(e, c, el, n - 1, le, q, o);
      var d, child := LastChild(e, c, el, n, le);
      var m, x := ImportedChilds(e, c, el, n - 1, le).value, el.childs[n - 1];
      ChildImported(m, c, x, d, child, le, q, o);
      OneMore(c, el.childs[..n - 1], x, le, q, o, VariantAt(e, q, o), VariantAt(m, q, o), VariantAt(m.(children := m.children[x.name := child]), q, o));
    }
  }

  lemma {:induction false} LastChild(e: Entry, c: Ctx, el: Element, n: nat, le: L.LeafEntry) returns (d: Ctx, child: Entry)
    requires 0 < n <= |el.childs| && AtContent(c) && ImportedChilds(e, c, el, n, le).Some?
    ensures el.childs[..n] == el.childs[..n - 1] + [el.childs[n - 1]] && ImportedChilds(e, c, el, n - 1, le).Some?
    ensures var m, x := ImportedChilds(e, c, el, n - 1, le).value, el.childs[n - 1];
            && ChildCtx(c, x.name) == Some(d) && d.level == 0 && Imported(ChildOrNew(m, d, x.name), d, x, le) == Some(child)
            && ImportedChilds(e, c, el, n, le) == Some(m.(children := m.children[x.name := child]))
  {
    var m, x := ImportedChilds(e, c, el, n - 1, le).value, el.childs[n - 1];
    d := ChildCtx(c, x.name).value;
    child := Imported(ChildOrNew(m, d, x.name), d, x, le).value;
  }

  /** Import fails exactly when a name is unknown to the schema or a key leaf is missing. */
  lemma {:induction false} ImportSucceeds(e: Entry, c: Ctx, el: Element, le: L.LeafEntry)
    requires c.level == 0 || AtContent(c)
    ensures Imported(e, c, el, le).Some? <==> Importable(c, el)
    decreases el, 1, 0
  {
    if c.schema.Container? && HasKeys(c, el) {
      var names := KeyTexts(c, el);
      PassKeyLevels(c, names);
      var at := Walked(e, c, names);
      ChildsSucceed(at, ContentCtx(c), el, |el.childs|, le);
      if el.childs == [] || ImportedChilds(at, ContentCtx(c), el, |el.childs|, le).Some? {
        var n := if el.childs == [] then Bare(at, c, names, le) else ImportedChilds(at, ContentCtx(c), el, |el.childs|, le).value;
        GrowSucceeds(e, c, names, (x: Entry) => n);
        assert Planted(e, c, names, n).Some?;
      }
    }
  }

  lemma {:induction false} ChildsSucceed(e: Entry, c: Ctx, el: Element, n: nat, le: L.LeafEntry)
    requires n <= |el.childs| && AtContent(c)
    ensures ImportedChilds(e, c, el, n, le).Some? <==>
            forall i | 0 <= i < n :: ChildCtx(c, el.childs[i].name).Some? && Importable(ChildCtx(c, el.childs[i].name).value, el.childs[i])
    decreases el, 0, n
  {
    if n > 0 {
      ChildsSucceed(e, c, el, n - 1, le);
      if ImportedChilds(e, c, el, n - 1, le).Some? && ChildCtx(c, el.childs[n - 1].name).Some? {
        var m := ImportedChilds(e, c, el, n - 1, le).value;
        var x := el.childs[n - 1];
        var d := ChildCtx(c, x.name).value;
        ImportSucceeds(ChildOrNew(m, d, x.name), d, x, le);
      }
    }
  }

  lemma {:induction false} WalkedSnoc(e: Entry, c: Ctx, p: Path, name: string, d: Ctx, f: Ctx)
    requires CtxAt(c, p) == Some(d) && ChildCtx(d, name) == Some(f)
    ensures CtxAt(c, p + [name]) == Some(f)
    ensures Walked(e, c, p + [name]) == ChildOrNew(Walked(e, c, p), f, name)
    decreases p
  {
    if p == [] {
      assert p + [name] == [name] && [name][1..] == [];
    } else {
      var g := ChildCtx(c, p[0]).value;
      assert (p + [name])[1..] == p[1..] + [name] && (p + [name])[0] == p[0];
      WalkedSnoc(ChildOrNew(e, g, p[0]), g, p[1..], name, d, f);
    }
  }

  /** One key level further. */
  method KeyStep(e: Entry, c: Ctx, names: seq<string>, at: Entry, name: string) returns (next: Entry)
    requires c.schema.Container? && c.level + |names| < |KeyNames(c)|
    requires CtxAt(c, names).Some? && at == Walked(e, c, names)
    ensures CtxAt(c, names + [name]).Some? && next == Walked(e, c, names + [name])
  {
    var d := Ctx(c.schema, c.level + |names| + 1);
    PassKeyLevels(c, names);
    WalkedSnoc(e, c, names, name, Ctx(c.schema, c.level + |names|), d);
    next := ChildOrNew(at, d, name);
  }

  /** Finds or creates the key levels of an element, one key at a time. */
  method WalkKeys(e: Entry, c: Ctx, el: Element) returns (r: Option<(seq<string>, Entry)>)
    requires c.schema.Container? && (c.level == 0 || AtContent(c))
    ensures r.Some? <==> HasKeys(c, el)
    ensures CtxAt(c, KeyTexts(c, el)).Some?
    ensures r.Some? ==> r.value == (KeyTexts(c, el), Walked(e, c, KeyTexts(c, el)))
  {
    var keys := MissingKeys(c);
    PassKeyLevels(c, KeyTexts(c, el));
    var names: seq<string> := [];
    var at := e;
    for i := 0 to |keys|
      invariant |names| == i && forall j | 0 <= j < i :: names[j] == KeyText(el, keys[j])
      invariant forall j | 0 <= j < i :: GetElement(el.childs, keys[j]).Some?
      invariant CtxAt(c, names).Some? && at == Walked(e, c, names)
    {
      if GetElement(el.childs, keys[i]).None? {
        return None;
      }
      at := KeyStep(e, c, names, at, KeyText(el, keys[i]));
      names := names + [KeyText(el, keys[i])];
    }
    assert names == KeyTexts(c, el);
    return Some((names, at));
  }

  /** The import walk: key levels first, then the children one by one. */
  method ImportElement(e: Entry, c: Ctx, el: Element, le: L.LeafEntry) returns (r: Option<Entry>)
    requires c.level == 0 || AtContent(c)
    ensures r == Imported(e, c, el, le)
    decreases el, 1, 0
  {
    if !c.schema.Container? {
      return Some(LeafAdded(e, le.(value := TvValue(el))));
    }
    var walk := WalkKeys(e, c, el);
    if walk.None? {
      return None;
    }
    var (names, at) := walk.value;
    if el.childs == [] {
      return Planted(e, c, names, Bare(at, c, names, le));
    }
    var filled := ImportChilds(at, ContentCtx(c), el, le);
    if filled.None? {
      return None;
    }
    return Planted(e, c, names, filled.value);
  }

  method ImportChilds(e: Entry, c: Ctx, el: Element, le: L.LeafEntry) returns (r: Option<Entry>)
    requires AtContent(c)
    ensures r == ImportedChilds(e, c, el, |el.childs|, le)
    decreases el, 0, 1
  {
    r := Some(e);
    for i := 0 to |el.childs|
      invariant r.Some? && r == ImportedChilds(e, c, el, i, le)
    {
      r := ImportChild(e, c, el, i, r.value, le);
      if r.None? {
        FailsOn(e, c, el, i + 1, |el.childs|, le);
        return;
      }
    }
  }

  /** One more child. */
  method ImportChild(ghost e: Entry, c: Ctx, el: Element, i: nat, at: Entry, le: L.LeafEntry) returns (r: Option<Entry>)
    requires AtContent(c) && i < |el.childs| && ImportedChilds(e, c, el, i, le) == Some(at)
    ensures r == ImportedChilds(e, c, el, i + 1, le)
    decreases el, 0, 0
  {
    var x := el.childs[i];
    var d := ChildCtx(c, x.name);
    if d.None? {
      return None;
    }
    var child := ImportElement(ChildOrNew(at, d.value, x.name), d.value, x, le);
    if child.None? {
      return None;
    }
    r := Some(at.(children := at.children[x.name := child.value]));
  }

  lemma {:induction false} FailsOn(e: Entry, c: Ctx, el: Element, n: nat, m: nat, le: L.LeafEntry)
    requires AtContent(c) && n <= m <= |el.childs| && ImportedChilds(e, c, el, n, le).None?
    ensures ImportedChilds(e, c, el, m, le).None?
    decreases m
  {
    if n < m {
      FailsOn(e, c, el, n, m - 1, le);
    }
  }

  /** A key leaf that carries another value than its key level: the element persisted from list
      element "1" stands for content of list element "2". */
  lemma MisnamedKeyMoves()
    ensures var el := Element("l", [Element("k", [], Some(Value("string", "2")))], None);
            && Content(Ctx(KeyedList(), 0), el, ["2", "k"]) == Some(Value("string", "2"))
            && Content(Ctx(KeyedList(), 0), el, ["1", "k"]) == None
  {
    var key := Element("k", [], Some(Value("string", "2")));
    var el, c := Element("l", [key], None), Ctx(KeyedList(), 0);
    assert ["k"][1..] == [] && Alphabetical([]) == [];
    assert Alphabetical(["k"]) == ["k"];
    assert GetElement(el.childs, "k") == Some(key);
    assert KeyTexts(c, el) == ["2"];
    var inside := ContentCtx(c);
    assert inside == Ctx(KeyedList(), 1) && ChildCtx(inside, "k") == Some(Ctx(Field("string"), 0));
    assert ["2", "k"][1..] == ["k"] && ["2"] <= ["2", "k"];
    assert el.childs == [] + [key];
    ContentsSnoc(inside, [], key, ["k"]);
    assert Contents(inside, el.childs, ["k"]) == Some(Value("string", "2"));
    var two, one := ["2"], ["1", "k"];
    assert "1"[0] != "2"[0] && two[0] != one[0];
    assert !(two <= one);
  }
}
