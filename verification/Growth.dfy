/** Growing the tree: creating entries along a path (pkg/tree/ops/getorcreatechilds.go) and what
    an insertion does to every owner's content. */
module Growth {
  import opened Base
  import opened Tree
  import opened Paths
  import L = Leaves
  import S = LeafStore

  // ---------------------------------------------------------------- new entries

  function DefaultLeaf(v: Value): Entry {
    Entry(Some(Field(v.typ)), map[], [L.LeafEntry(DEFAULT, DEFAULT_PRIO, v, false, false, false, false, false)], map[], {})
  }

  /** Whether the content of a container or list element starts at this position. */
  predicate AtContent(c: Ctx) {
    c.schema.Container? && c.level == |KeyNames(c)|
  }

  /** A new entry at a position: key levels carry no schema; content comes with its defaults. */
  function NewEntry(c: Ctx): Entry {
    Entry(if c.level == 0 then Some(c.schema) else None,
          if AtContent(c) then map k | k in c.schema.defaults :: DefaultLeaf(c.schema.defaults[k]) else map[],
          [], map[], {})
  }

  function ChildOrNew(e: Entry, d: Ctx, name: string): Entry {
    if name in e.children then e.children[name] else NewEntry(d)
  }

  /** Finds or creates the entry at the end of p and puts what f makes of it there; None if the
      schema does not know a name on the way. */
  function Grow(e: Entry, c: Ctx, p: Path, f: Entry -> Entry): Option<Entry>
    decreases p
  {
    if p == [] then Some(f(e))
    else match ChildCtx(c, p[0])
      case None => None
      case Some(d) =>
        match Grow(ChildOrNew(e, d, p[0]), d, p[1..], f)
        case None => None
        case Some(n) => Some(e.(children := e.children[p[0] := n]))
  }

  lemma {:induction false} GrowSucceeds(e: Entry, c: Ctx, p: Path, f: Entry -> Entry)
    ensures Grow(e, c, p, f).Some? <==> CtxAt(c, p).Some?
    decreases p
  {
    if p != [] && ChildCtx(c, p[0]).Some? {
      var d := ChildCtx(c, p[0]).value;
      GrowSucceeds(ChildOrNew(e, d, p[0]), d, p[1..], f);
    }
  }

  /** Asking for the path of an existing entry leads to it and creates nothing. */
  lemma {:induction false} GrowExisting(e: Entry, c: Ctx, p: Path)
    requires At(e, p).Some? && CtxAt(c, p).Some?
    ensures Grow(e, c, p, x => x) == Some(e)
    decreases p
  {
    if p != [] {
      var d := ChildCtx(c, p[0]).value;
      GrowExisting(e.children[p[0]], d, p[1..]);
      assert e.children[p[0] := e.children[p[0]]] == e.children;
    }
  }

  /** GetOrCreateChilds on the schema path of an existing entry changes nothing. */
  lemma GetOrCreateExisting(root: Entry, schema: Schema, p: Path)
    requires SchemaKeys(schema) == [] && CtxAt(Ctx(schema, 0), p).Some? && At(root, p).Some?
    ensures Grow(root, Ctx(schema, 0), Names(SdcpbPath(schema, p)), x => x) == Some(root)
  {
    PathWalksItself(schema, p);
    GrowExisting(root, Ctx(schema, 0), p);
  }

  // ---------------------------------------------------------------- observations

  /** The variant an owner holds at a path. */
  function VariantAt(e: Entry, p: Path, owner: string): Option<L.LeafEntry> {
    match At(e, p)
    case None => None
    case Some(n) => L.ByOwner(n.les, owner)
  }

  /** The live content of an owner. */
  function LiveAt(e: Entry, p: Path, owner: string): Option<Value> {
    match VariantAt(e, p, owner)
    case None => None
    case Some(l) => if l.delete then None else Some(l.value)
  }

  ghost predicate OwnersUnique(e: Entry) {
    && L.UniqueOwners(e.les)
    && forall k | k in e.children :: OwnersUnique(e.children[k])
  }

  lemma NewEntryEmpty(c: Ctx, p: Path, owner: string)
    requires owner != DEFAULT
    ensures OwnersUnique(NewEntry(c)) && VariantAt(NewEntry(c), p, owner) == None
  {
    if p != [] && p[0] in NewEntry(c).children {
      var n := NewEntry(c).children[p[0]];
      assert n == DefaultLeaf(c.schema.defaults[p[0]]);
      assert At(NewEntry(c), p) == At(n, p[1..]);
      assert p[1..] != [] ==> At(n, p[1..]).None?;
      assert forall i | 0 <= i < |n.les| :: n.les[i].owner == DEFAULT;
    }
  }

  lemma {:induction false} OwnersUniqueAt(e: Entry, p: Path)
    requires OwnersUnique(e) && At(e, p).Some?
    ensures L.UniqueOwners(At(e, p).value.les)
    decreases p
  {
    if p != [] {
      OwnersUniqueAt(e.children[p[0]], p[1..]);
    }
  }

  function AddAt(le: L.LeafEntry): Entry -> Entry {
    (n: Entry) => n.(les := S.Added(n.les, le))
  }

  /** Inserting a variant at p: that owner's content at p becomes the inserted value, and every
      other owner's content anywhere, and this owner's content elsewhere, stays as it was. */
  lemma {:induction false} InsertObserved(e: Entry, c: Ctx, p: Path, le: L.LeafEntry, q: Path, owner: string)
    requires OwnersUnique(e) && Grow(e, c, p, AddAt(le)).Some? && le.owner != DEFAULT && owner != DEFAULT
    ensures var e' := Grow(e, c, p, AddAt(le)).value;
            && OwnersUnique(e')
            && (q != p || owner != le.owner ==> VariantAt(e', q, owner) == VariantAt(e, q, owner))
            && VariantAt(e', p, le.owner).Some? && VariantAt(e', p, le.owner).value.SameUpdate(le)
            && (!le.delete ==> !VariantAt(e', p, le.owner).value.delete)
    decreases p
  {
    var e' := Grow(e, c, p, AddAt(le)).value;
    if p == [] {
      S.AddedPerOwner(e.les, le, owner);
      S.AddedPerOwner(e.les, le, le.owner);
      assert e'.children == e.children;
    } else {
      var d := ChildCtx(c, p[0]).value;
      var child := ChildOrNew(e, d, p[0]);
      NewEntryEmpty(d, [], le.owner);
      InsertObserved(child, d, p[1..], le, if q == [] then [] else q[1..], owner);
      if q != [] && q[0] == p[0] {
        NewEntryEmpty(d, q[1..], owner);
        assert q == p <==> q[1..] == p[1..];
      }
    }
  }

  // ---------------------------------------------------------------- defaults of new entries

  /** The default the schema gives the leaf at q. */
  function DefaultOf(c: Ctx, q: Path): Option<Value> {
    if q != [] && CtxAt(c, Up(q)).Some? && AtContent(CtxAt(c, Up(q)).value) && q[|q| - 1] in CtxAt(c, Up(q)).value.schema.defaults
    then Some(CtxAt(c, Up(q)).value.schema.defaults[q[|q| - 1]]) else None
  }

  /** What a new entry at q holds of its own: the default of its leaf, at the rank of defaults. */
  function Fresh(c: Ctx, q: Path): Option<L.LeafEntry> {
    match DefaultOf(c, q)
    case None => None
    case Some(v) => Some(L.LeafEntry(DEFAULT, DEFAULT_PRIO, v, false, false, false, false, false))
  }

  lemma {:induction false} NewEntryDefaults(c: Ctx, q: Path)
    ensures At(NewEntry(c), q).Some? <==> q == [] || (|q| == 1 && DefaultOf(c, q).Some?)
    ensures VariantAt(NewEntry(c), q, DEFAULT) == if |q| == 1 then Fresh(c, q) else None
  {
    var e := NewEntry(c);
    if q != [] {
      if |q| == 1 {
        assert q[1..] == [] && Up(q) == [];
      }
      if q[0] in e.children {
        var n := e.children[q[0]];
        assert n == DefaultLeaf(c.schema.defaults[q[0]]);
        assert At(e, q) == At(n, q[1..]);
        assert n.les[0].owner == DEFAULT;
      }
    }
  }

  lemma {:induction false} DefaultBelow(c: Ctx, q: Path)
    requires |q| > 0 && ChildCtx(c, q[0]).Some?
    ensures |q| > 1 ==> DefaultOf(c, q) == DefaultOf(ChildCtx(c, q[0]).value, q[1..])
  {
    if |q| > 1 {
      assert Up(q) == [q[0]] + Up(q[1..]) && q[|q| - 1] == q[1..][|q[1..]| - 1];
    }
  }
}
