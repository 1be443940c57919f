/** Trees built by inserting updates sit where the schema says, so that every owner's content in
    them can be exported. */
module Shapes {
  import opened Base
  import opened Tree
  import opened Paths
  import opened Growth
  import opened Insertion
  import opened Export
  import P = Persist
  import L = Leaves
  import S = LeafStore

  /** Keys are leaves of their list, and defaults have the type of their leaf. */
  ghost predicate SchemaOk(s: Schema) {
    s.Container? ==>
      && (forall k | k in s.keys :: k in s.children && s.children[k].Field?)
      && (forall k | k in s.defaults :: k in s.children && s.children[k] == Field(s.defaults[k].typ))
      && (forall k | k in s.children :: SchemaOk(s.children[k]))
  }

  ghost predicate CtxOk(c: Ctx) {
    SchemaOk(c.schema) && c.level <= |KeyNames(c)|
  }

  lemma CtxBelow(c: Ctx, k: string, d: Ctx)
    requires CtxOk(c) && ChildCtx(c, k) == Some(d)
    ensures CtxOk(d)
  {
  }

  lemma {:induction false} NewEntryTyped(c: Ctx)
    requires CtxOk(c)
    ensures Typed(NewEntry(c), c)
  {
    var n := NewEntry(c);
    forall k | k in n.children ensures ChildCtx(c, k).Some? && Typed(n.children[k], ChildCtx(c, k).value) {
      assert n.children[k] == DefaultLeaf(c.schema.defaults[k]);
    }
  }

  lemma {:induction false} ChildTyped(e: Entry, c: Ctx, k: string, n: Entry)
    requires Typed(e, c) && ChildCtx(c, k).Some? && Typed(n, ChildCtx(c, k).value)
    ensures Typed(e.(children := e.children[k := n]), c)
  {
  }

  lemma {:induction false} LesTyped(e: Entry, c: Ctx, les: seq<L.LeafEntry>)
    requires Typed(e, c)
    ensures Typed(e.(les := les), c)
  {
    assert e.(les := les).children == e.children;
  }

  /** A key of a list element is a leaf of it. */
  lemma KeyIsField(c: Ctx, i: nat, name: string)
    requires CtxOk(c) && AtContent(c) && i < |KeyNames(c)|
    ensures var k := KeyNames(c)[i];
            k in c.schema.children && c.schema.children[k] == Field(KeyValue(c.schema, k, name).typ)
  {
    AlphabeticalSorts(SchemaKeys(c.schema));
    assert KeyNames(c)[i] in SchemaKeys(c.schema);
  }

  lemma {:induction false} KeyEnsuredTyped(e: Entry, c: Ctx, k: string, v: Value, le: L.LeafEntry)
    requires Typed(e, c) && CtxOk(c) && AtContent(c) && k in c.schema.children && c.schema.children[k] == Field(v.typ)
    ensures Typed(KeyEnsured(e, k, v, le), c)
  {
    var d := Ctx(Field(v.typ), 0);
    NewEntryTyped(d);
    var child := if k in e.children then e.children[k] else NewEntry(d);
    var n := KeyLeafEnsured(child, v, le);
    LesTyped(child, d, n.les);
    assert n == child.(les := n.les);
    ChildTyped(e, c, k, n);
    assert KeyEnsured(e, k, v, le) == e.(children := e.children[k := n]);
  }

  lemma {:induction false} KeysEnsuredTyped(e: Entry, c: Ctx, names: seq<string>, n: nat, le: L.LeafEntry)
    requires Typed(e, c) && CtxOk(c) && IsElement(c, names) && n <= c.level
    ensures Typed(KeysEnsured(e, KeyNames(c)[..n], Insertion.KeyValues(c, names)[..n], le), c)
    decreases n
  {
    if n > 0 {
      var k, v := KeyNames(c)[n - 1], Insertion.KeyValues(c, names)[n - 1];
      KeyIsField(c, n - 1, names[n - 1]);
      KeyEnsuredTyped(e, c, k, v, le);
      KeysEnsuredTyped(KeyEnsured(e, k, v, le), c, names, n - 1, le);
      assert KeyNames(c)[..n][..n - 1] == KeyNames(c)[..n - 1] && Insertion.KeyValues(c, names)[..n][..n - 1] == Insertion.KeyValues(c, names)[..n - 1];
    }
  }

  lemma {:induction false} PreparedTyped(e: Entry, c: Ctx, names: seq<string>, le: L.LeafEntry)
    requires Typed(e, c) && CtxOk(c)
    ensures Typed(Prepared(e, c, names, le), c)
  {
    if IsElement(c, names) {
      KeysEnsuredTyped(e, c, names, c.level, le);
      assert KeyNames(c)[..c.level] == KeyNames(c) && Insertion.KeyValues(c, names)[..c.level] == Insertion.KeyValues(c, names);
    }
  }

  /** An insertion keeps every entry where the schema says. */
  lemma {:induction false} AddUpdateTyped(e: Entry, c: Ctx, names: seq<string>, p: Path, le: L.LeafEntry)
    requires Typed(e, c) && CtxOk(c) && AddUpdate(e, c, names, p, le).Some?
    ensures Typed(AddUpdate(e, c, names, p, le).value, c)
    decreases p
  {
    var e1 := Prepared(e, c, names, le);
    PreparedTyped(e, c, names, le);
    if p == [] {
      LesTyped(e1, c, S.Added(e1.les, le));
    } else {
      var d := ChildCtx(c, p[0]).value;
      CtxBelow(c, p[0], d);
      NewEntryTyped(d);
      AddUpdateTyped(ChildOrNew(e1, d, p[0]), d, Below(d, names, p[0]), p[1..], le);
      ChildTyped(e1, c, p[0], AddUpdate(ChildOrNew(e1, d, p[0]), d, Below(d, names, p[0]), p[1..], le).value);
    }
  }

  // ---------------------------------------------------------------- where values sit

  predicate LeafPlace(c: Ctx, p: Path) {
    CtxAt(c, p).Some? && CtxAt(c, p).value.level == 0 && !CtxAt(c, p).value.schema.Container?
  }

  /** Key leaves are leaves. */
  lemma {:induction false} KeyLeafIsLeaf(c: Ctx, names: seq<string>, p: Path, q: Path)
    requires CtxOk(c) && KeyLeafAt(c, names, p, q).Some?
    ensures LeafPlace(c, q)
    decreases p
  {
    if |q| == 1 && ElementKey(c, names, q[0]).Some? {
      var i := KeyIndex(KeyNames(c), q[0]).value;
      KeyIsField(c, i, names[i]);
      assert q[1..] == [];
      assert CtxAt(c, q) == Some(Ctx(c.schema.children[q[0]], 0));
    } else {
      var d := ChildCtx(c, p[0]).value;
      CtxBelow(c, p[0], d);
      KeyLeafIsLeaf(d, Below(d, names, p[0]), p[1..], q[1..]);
    }
  }

  ghost predicate Leafy(e: Entry, c: Ctx, owner: string) {
    forall q | LiveAt(e, q, owner).Some? :: LeafPlace(c, q)
  }

  lemma AddUpdateLeafy(e: Entry, c: Ctx, p: Path, le: L.LeafEntry, owner: string)
    requires CtxOk(c) && OwnersUnique(e) && le.owner != DEFAULT && owner != DEFAULT && !le.delete
    requires Matching(e, c, [], le.owner) && Leafy(e, c, owner) && LeafPlace(c, p)
    requires AddUpdate(e, c, [], p, le).Some? && KeyConsistent(c, [], p, le.value)
    ensures Leafy(AddUpdate(e, c, [], p, le).value, c, owner)
  {
    var e' := AddUpdate(e, c, [], p, le).value;
    forall q | LiveAt(e', q, owner).Some? ensures LeafPlace(c, q) {
      if owner == le.owner {
        AddUpdateObserved(e, c, [], p, le, q);
        if q != p && KeyLeafAt(c, [], p, q).Some? {
          KeyLeafIsLeaf(c, [], p, q);
        }
      } else {
        AddUpdateOthers(e, c, [], p, le, q, owner);
      }
    }
  }

  // ---------------------------------------------------------------- whatever is built can be exported

  lemma EmptySound(c: Ctx, owner: string)
    requires owner != DEFAULT
    ensures OwnersUnique(NewEntry(c)) && Sound(NewEntry(c), c, owner) && Leafy(NewEntry(c), c, owner)
  {
    NewEntryEmpty(c, [], owner);
    forall q ensures VariantAt(NewEntry(c), q, owner).None? {
      NewEntryEmpty(c, q, owner);
    }
  }

  ghost predicate Buildable(c: Ctx, us: seq<Update>) {
    forall i | 0 <= i < |us| :: Insertable(c, us[i]) && LeafPlace(c, us[i].path)
  }

  lemma {:induction false} BuiltLeafy(c: Ctx, us: seq<Update>, owner: string)
    requires CtxOk(c) && owner != DEFAULT && Buildable(c, us) && AddAll(NewEntry(c), c, us).Some?
    ensures Typed(AddAll(NewEntry(c), c, us).value, c) && Leafy(AddAll(NewEntry(c), c, us).value, c, owner)
    decreases |us|
  {
    if us == [] {
      NewEntryTyped(c);
      EmptySound(c, owner);
    } else {
      var front, u := us[..|us| - 1], us[|us| - 1];
      var m := AddAll(NewEntry(c), c, front).value;
      BuiltLeafy(c, front, owner);
      BuiltSound(c, front, u.le.owner);
      AddUpdateTyped(m, c, [], u.path, u.le);
      AddUpdateLeafy(m, c, u.path, u.le, owner);
    }
  }

  lemma BuiltSound(c: Ctx, us: seq<Update>, owner: string)
    requires owner != DEFAULT && Buildable(c, us) && AddAll(NewEntry(c), c, us).Some?
    ensures OwnersUnique(AddAll(NewEntry(c), c, us).value) && Sound(AddAll(NewEntry(c), c, us).value, c, owner)
  {
    forall o | o != DEFAULT ensures Sound(NewEntry(c), c, o) {
      EmptySound(c, o);
    }
    NewEntryEmpty(c, [], RUNNING);
    KeyLeafClosure(NewEntry(c), c, us, owner);
  }

  /** Every tree that insertions at leaves build from an empty root can be exported, for every
      owner: entries sit where the schema says, values in leaves, key leaves in place. */
  lemma BuiltIsExportable(c: Ctx, us: seq<Update>, owner: string)
    requires CtxOk(c) && c.level == 0 && KeyNames(c) == [] && owner != DEFAULT
    requires Buildable(c, us) && AddAll(NewEntry(c), c, us).Some?
    ensures RootOk(AddAll(NewEntry(c), c, us).value, c, owner)
  {
    var e := AddAll(NewEntry(c), c, us).value;
    BuiltLeafy(c, us, owner);
    BuiltSound(c, us, owner);
    assert KeyClosed(e, c, owner);
    forall p | LiveAt(e, p, owner).Some? ensures Holds(e, c, p, owner) {
      assert LeafPlace(c, p);
    }
  }

  // ---------------------------------------------------------------- imports and marks keep the shape

  lemma {:induction false} GrowTyped(e: Entry, c: Ctx, p: Path, d: Ctx, n: Entry, f: Entry -> Entry)
    requires Typed(e, c) && CtxOk(c) && CtxAt(c, p) == Some(d) && Typed(n, d) && (forall x :: f(x) == n) && Grow(e, c, p, f).Some?
    ensures Typed(Grow(e, c, p, f).value, c)
    decreases p
  {
    if p != [] {
      var b := ChildCtx(c, p[0]).value;
      CtxBelow(c, p[0], b);
      NewEntryTyped(b);
      GrowTyped(ChildOrNew(e, b, p[0]), b, p[1..], d, n, f);
      ChildTyped(e, c, p[0], Grow(ChildOrNew(e, b, p[0]), b, p[1..], f).value);
    }
  }

  lemma {:induction false} WalkedTyped(e: Entry, c: Ctx, p: Path)
    requires Typed(e, c) && CtxOk(c) && CtxAt(c, p).Some?
    ensures Typed(P.Walked(e, c, p), CtxAt(c, p).value)
    decreases p
  {
    if p != [] {
      var b := ChildCtx(c, p[0]).value;
      CtxBelow(c, p[0], b);
      NewEntryTyped(b);
      WalkedTyped(ChildOrNew(e, b, p[0]), b, p[1..]);
    }
  }

  /** Import puts every entry where the schema says. */
  lemma {:induction false} ImportedTyped(e: Entry, c: Ctx, el: P.Element, le: L.LeafEntry)
    requires (c.level == 0 || AtContent(c)) && Typed(e, c) && CtxOk(c) && P.Imported(e, c, el, le).Some?
    ensures Typed(P.Imported(e, c, el, le).value, c)
    decreases el, 1, 0
  {
    if !c.schema.Container? {
      LesTyped(e, c, S.Added(e.les, le.(value := P.TvValue(el))));
    } else {
      var names, inside := P.KeyTexts(c, el), P.ContentCtx(c);
      P.PassKeyLevels(c, names);
      assert CtxAt(c, names) == Some(inside);
      var at := P.Walked(e, c, names);
      WalkedTyped(e, c, names);
      ghost var n := P.Bare(at, c, names, le);
      if el.childs != [] {
        ChildsTyped(at, inside, el, |el.childs|, le);
        n := P.ImportedChilds(at, inside, el, |el.childs|, le).value;
      } else {
        LesTyped(at, inside, n.les);
      }
      GrowTyped(e, c, names, inside, n, (x: Entry) => n);
      assert P.Imported(e, c, el, le) == P.Planted(e, c, names, n);
    }
  }

  lemma {:induction false} ChildsTyped(e: Entry, c: Ctx, el: P.Element, n: nat, le: L.LeafEntry)
    requires n <= |el.childs| && AtContent(c) && Typed(e, c) && CtxOk(c) && P.ImportedChilds(e, c, el, n, le).Some?
    ensures Typed(P.ImportedChilds(e, c, el, n, le).value, c)
    decreases el, 0, n
  {
    if n > 0 {
      ChildsTyped(e, c, el, n - 1, le);
      var m, x := P.ImportedChilds(e, c, el, n - 1, le).value, el.childs[n - 1];
      var d := ChildCtx(c, x.name).value;
      CtxBelow(c, x.name, d);
      NewEntryTyped(d);
      ImportedTyped(ChildOrNew(m, d, x.name), d, x, le);
      ChildTyped(m, c, x.name, P.Imported(ChildOrNew(m, d, x.name), d, x, le).value);
    }
  }

  // ---------------------------------------------------------------- defaults of created entries

  /** A leaf with a default has no defaults of its own below. */
  lemma {:induction false} NoDefaultBelowDefault(c: Ctx, q: Path)
    requires CtxOk(c)
    ensures |q| == 2 && DefaultOf(c, Up(q)).Some? ==> DefaultOf(c, q).None?
  {
    if |q| == 2 && DefaultOf(c, Up(q)).Some? {
      assert Up(q) == [q[0]] && Up(Up(q)) == [] && [q[0]][1..] == [];
      assert CtxAt(c, Up(q)) == ChildCtx(c, q[0]);
    }
  }

  /** Creating the entries along p gives every new entry its defaults, and changes no default there is. */
  lemma {:induction false} CreatedDefaults(e: Entry, c: Ctx, p: Path, q: Path)
    requires CtxOk(c) && Grow(e, c, p, x => x).Some?
    ensures VariantAt(Grow(e, c, p, x => x).value, q, DEFAULT) ==
            if At(e, q).Some? then VariantAt(e, q, DEFAULT)
            else if q != [] && At(e, Up(q)).None? && Up(q) <= p then Fresh(c, q)
            else None
    decreases p
  {
    if p == [] {
      assert Up(q) <= p ==> Up(q) == [];
    } else {
      var d := ChildCtx(c, p[0]).value;
      var child := ChildOrNew(e, d, p[0]);
      if q != [] && q[0] == p[0] {
        CtxBelow(c, p[0], d);
        CreatedDefaults(child, d, p[1..], q[1..]);
        NewEntryDefaults(d, q[1..]);
        DefaultBelow(c, q);
        if |q| > 1 {
          assert Up(q) == [q[0]] + Up(q[1..]);
          assert Up(q) <= p <==> Up(q[1..]) <= p[1..];
          NewEntryDefaults(d, Up(q[1..]));
          NoDefaultBelowDefault(d, q[1..]);
        } else {
          assert Up(q) == [] && q[1..] == [];
        }
      } else if |q| > 1 {
        assert Up(q)[0] == q[0];
      }
    }
  }
}
