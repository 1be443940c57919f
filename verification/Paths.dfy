/** Schema paths of tree entries: derived from position (pkg/tree/sharedEntryAttributes.go,
    SdcpbPath) and navigated back (pkg/tree/ops/navigatesdcpbpath.go). */
module Paths {
  import opened Base
  import opened Tree

  // ---------------------------------------------------------------- alphabetical order

  predicate Less(a: string, b: string) {
    if b == "" then false
    else if a == "" then true
    else a[0] < b[0] || (a[0] == b[0] && Less(a[1..], b[1..]))
  }

  lemma LessTotal(a: string, b: string)
    ensures a == b || Less(a, b) || Less(b, a)
    ensures !(Less(a, b) && Less(b, a)) && (a == b ==> !Less(a, b))
  {
    if a != "" && b != "" && a[0] == b[0] {
      LessTotal(a[1..], b[1..]);
      assert a == [a[0]] + a[1..] && b == [b[0]] + b[1..];
    }
  }

  lemma LessTrans(a: string, b: string, c: string)
    requires Less(a, b) && Less(b, c)
    ensures Less(a, c)
  {
    if a != "" && a[0] == b[0] == c[0] {
      LessTrans(a[1..], b[1..], c[1..]);
    }
  }

  predicate Ascending(s: seq<string>) {
    forall i, j | 0 <= i < j < |s| :: Less(s[i], s[j])
  }

  function Insert(s: seq<string>, x: string): seq<string> {
    if s == [] then [x]
    else if s[0] == x then s
    else if Less(x, s[0]) then [x] + s
    else [s[0]] + Insert(s[1..], x)
  }

  /** List keys in alphabetical order: the order of the key levels in the tree. */
  function Alphabetical(keys: seq<string>): seq<string> {
    if keys == [] then [] else Insert(Alphabetical(keys[1..]), keys[0])
  }

  lemma {:induction false} InsertMembers(s: seq<string>, x: string, y: string)
    ensures y in Insert(s, x) <==> y in s || y == x
  {
    if s != [] {
      InsertMembers(s[1..], x, y);
      assert s == [s[0]] + s[1..];
    }
  }

  lemma {:induction false} InsertAscends(s: seq<string>, x: string)
    requires Ascending(s)
    ensures Ascending(Insert(s, x))
  {
    if s != [] && s[0] != x {
      if Less(x, s[0]) {
        forall j | 0 <= j < |s| ensures Less(x, s[j]) {
          if j > 0 {
            LessTrans(x, s[0], s[j]);
          }
        }
      } else {
        LessTotal(x, s[0]);
        InsertAscends(s[1..], x);
        forall y | y in Insert(s[1..], x) ensures Less(s[0], y) {
          InsertMembers(s[1..], x, y);
          if y != x {
            var j :| 0 <= j < |s[1..]| && s[1..][j] == y;
            assert s[j + 1] == y;
          }
        }
      }
    }
  }

  lemma {:induction false} AlphabeticalSorts(keys: seq<string>)
    ensures Ascending(Alphabetical(keys))
    ensures forall y :: y in Alphabetical(keys) <==> y in keys
  {
    if keys != [] {
      AlphabeticalSorts(keys[1..]);
      InsertAscends(Alphabetical(keys[1..]), keys[0]);
      forall y ensures y in Alphabetical(keys) <==> y in keys {
        InsertMembers(Alphabetical(keys[1..]), keys[0], y);
      }
    }
  }

  lemma {:induction false} AscendingUnique(s: seq<string>, t: seq<string>)
    requires Ascending(s) && Ascending(t)
    requires forall y :: y in s <==> y in t
    ensures s == t
    decreases |s|
  {
    assert t != [] ==> t[0] in t;
    if s != [] {
      assert s[0] in t && t != [] && t[0] in s;
      LessTotal(s[0], t[0]);
      assert s[0] == t[0];
      forall y ensures y in s[1..] <==> y in t[1..] {
        TailMembers(s, y);
        TailMembers(t, y);
      }
      AscendingUnique(s[1..], t[1..]);
      assert s == [s[0]] + s[1..] && t == [t[0]] + t[1..];
    }
  }

  lemma TailMembers(s: seq<string>, y: string)
    requires Ascending(s) && s != []
    ensures y in s[1..] <==> y in s && y != s[0]
  {
    LessTotal(s[0], s[0]);
    if y in s && y != s[0] {
      var i :| 0 <= i < |s| && s[i] == y;
      assert s[1..][i - 1] == y;
    }
    if y in s[1..] {
      var i :| 0 <= i < |s[1..]| && s[1..][i] == y;
      assert s[i + 1] == y;
      assert Less(s[0], s[i + 1]);
    }
  }

  /** The order of the levels does not depend on the order in which the schema declares keys. */
  lemma DeclarationOrderIrrelevant(keys: seq<string>, keys': seq<string>)
    requires forall y :: y in keys <==> y in keys'
    ensures Alphabetical(keys) == Alphabetical(keys')
  {
    AlphabeticalSorts(keys);
    AlphabeticalSorts(keys');
    AscendingUnique(Alphabetical(keys), Alphabetical(keys'));
  }

  // ---------------------------------------------------------------- where an entry sits in the schema

  /** The schema of the nearest entry that has one, and how many key levels below it. */
  datatype Ctx = Ctx(schema: Schema, level: nat)

  function SchemaKeys(s: Schema): seq<string> {
    if s.Container? then s.keys else []
  }

  function KeyNames(c: Ctx): seq<string> {
    Alphabetical(SchemaKeys(c.schema))
  }

  function ChildCtx(c: Ctx, name: string): Option<Ctx> {
    if !c.schema.Container? then None
    else if c.level < |KeyNames(c)| then Some(Ctx(c.schema, c.level + 1))
    else if name in c.schema.children then Some(Ctx(c.schema.children[name], 0))
    else None
  }

  function CtxAt(c: Ctx, p: Path): Option<Ctx>
    decreases p
  {
    if p == [] then Some(c)
    else match ChildCtx(c, p[0])
      case None => None
      case Some(d) => CtxAt(d, p[1..])
  }

  lemma {:induction false} CtxSnoc(c: Ctx, p: Path, k: string)
    ensures CtxAt(c, p + [k]) == if CtxAt(c, p).Some? then ChildCtx(CtxAt(c, p).value, k) else None
    decreases p
  {
    if p == [] {
      assert p + [k] == [k] && [k][1..] == [];
    } else {
      assert (p + [k])[0] == p[0] && (p + [k])[1..] == p[1..] + [k];
      if ChildCtx(c, p[0]).Some? {
        CtxSnoc(ChildCtx(c, p[0]).value, p[1..], k);
      }
    }
  }

  // ---------------------------------------------------------------- path elements

  datatype Elem = Elem(name: string, keys: map<string, string>)

  /** One more step down: a schema level adds an element, a key level a key to the last one. */
  function Extend(path: seq<Elem>, d: Ctx, name: string): seq<Elem> {
    if d.level == 0 || path == [] || d.level > |KeyNames(d)| then path + [Elem(name, map[])]
    else
      var last := path[|path| - 1];
      path[|path| - 1 := Elem(last.name, last.keys[KeyNames(d)[d.level - 1] := name])]
  }

  /** The path of the entry reached by the names p below c, continuing `path`. */
  function PathFrom(c: Ctx, path: seq<Elem>, p: Path): seq<Elem>
    requires CtxAt(c, p).Some?
    decreases p
  {
    if p == [] then path
    else
      var d := ChildCtx(c, p[0]).value;
      PathFrom(d, Extend(path, d, p[0]), p[1..])
  }

  function SdcpbPath(root: Schema, p: Path): seq<Elem>
    requires CtxAt(Ctx(root, 0), p).Some?
  {
    PathFrom(Ctx(root, 0), [], p)
  }

  /** The values of an element's keys, in alphabetical order of the key names. */
  ghost function SortedNames(names: set<string>): (s: seq<string>)
    ensures Ascending(s) && forall y :: y in s <==> y in names
  {
    if names == {} then []
    else
      var x :| x in names;
      var rest := SortedNames(names - {x});
      InsertAscends(rest, x);
      assert forall y :: y in Insert(rest, x) <==> y in names by {
        forall y ensures y in Insert(rest, x) <==> y in names { InsertMembers(rest, x, y); }
      }
      Insert(rest, x)
  }

  function Select(m: map<string, string>, names: seq<string>): seq<string> {
    if names == [] then []
    else
      var last := names[|names| - 1];
      Select(m, names[..|names| - 1]) + [if last in m then m[last] else ""]
  }

  lemma {:induction false} SelectIgnores(m: map<string, string>, names: seq<string>, k: string, v: string)
    requires k !in names
    ensures Select(m[k := v], names) == Select(m, names)
  {
    if names != [] {
      SelectIgnores(m, names[..|names| - 1], k, v);
    }
  }

  ghost function KeyValues(e: Elem): seq<string> {
    Select(e.keys, SortedNames(e.keys.Keys))
  }

  ghost function ElemNames(e: Elem): seq<string> {
    [e.name] + KeyValues(e)
  }

  /** The tree levels a path walks through. */
  ghost function Names(path: seq<Elem>): Path {
    if path == [] then [] else Names(path[..|path| - 1]) + ElemNames(path[|path| - 1])
  }

  ghost function Firsts(keys: seq<string>, n: nat): set<string> {
    set i | 0 <= i < n && i < |keys| :: keys[i]
  }

  lemma FirstsStep(keys: seq<string>, n: nat)
    requires Ascending(keys) && n < |keys|
    ensures Firsts(keys, n + 1) == Firsts(keys, n) + {keys[n]}
    ensures keys[n] !in Firsts(keys, n) && keys[n] !in keys[..n]
  {
    forall i | 0 <= i < n ensures keys[i] != keys[n] {
      LessTotal(keys[i], keys[n]);
    }
  }

  lemma {:induction false} SortedFirsts(keys: seq<string>, n: nat)
    requires Ascending(keys) && n <= |keys|
    ensures SortedNames(Firsts(keys, n)) == keys[..n]
  {
    forall y ensures y in Firsts(keys, n) <==> y in keys[..n] {
      if y in keys[..n] {
        var i :| 0 <= i < n && keys[..n][i] == y;
        assert keys[i] == y;
      }
    }
    AscendingUnique(SortedNames(Firsts(keys, n)), keys[..n]);
  }

  lemma {:induction false} SelectExtends(m: map<string, string>, keys: seq<string>, n: nat, v: string)
    requires n < |keys| && keys[n] !in keys[..n]
    ensures Select(m[keys[n] := v], keys[..n + 1]) == Select(m, keys[..n]) + [v]
  {
    SelectIgnores(m, keys[..n], keys[n], v);
    assert keys[..n + 1][..n] == keys[..n];
  }

  /** Adding the key of the next level appends its value. */
  lemma {:induction false} KeyValuesExtend(last: Elem, keys: seq<string>, n: nat, v: string)
    requires Ascending(keys) && n < |keys| && last.keys.Keys == Firsts(keys, n)
    ensures KeyValues(Elem(last.name, last.keys[keys[n] := v])) == KeyValues(last) + [v]
  {
    var m := last.keys[keys[n] := v];
    FirstsStep(keys, n);
    assert m.Keys == Firsts(keys, n + 1);
    assert SortedNames(last.keys.Keys) == keys[..n] by { SortedFirsts(keys, n); }
    assert SortedNames(m.Keys) == keys[..n + 1] by { SortedFirsts(keys, n + 1); }
    SelectExtends(last.keys, keys, n, v);
  }

  lemma {:induction false} NamesSnoc(path: seq<Elem>, e: Elem)
    ensures Names(path + [e]) == Names(path) + ElemNames(e)
  {
    assert (path + [e])[..|path|] == path;
  }

  /** The last element carries exactly the keys of the levels walked so far. */
  ghost predicate LastKeysOk(c: Ctx, path: seq<Elem>) {
    && c.level <= |KeyNames(c)|
    && (path == [] ==> c.level == 0 && KeyNames(c) == [])
    && (path != [] ==> path[|path| - 1].keys.Keys == Firsts(KeyNames(c), c.level))
  }

  lemma {:induction false} ExtendSchemaLevel(path: seq<Elem>, d: Ctx, name: string)
    requires d.level == 0
    ensures LastKeysOk(d, Extend(path, d, name)) && Names(Extend(path, d, name)) == Names(path) + [name]
  {
    NamesSnoc(path, Elem(name, map[]));
    assert Firsts(KeyNames(d), 0) == {};
    assert KeyValues(Elem(name, map[])) == [];
    assert Extend(path, d, name) == path + [Elem(name, map[])];
  }

  lemma {:induction false} LastReplaced(front: seq<Elem>, last: Elem, next: Elem, keys: seq<string>, n: nat, v: string)
    requires Ascending(keys) && n < |keys| && last.keys.Keys == Firsts(keys, n)
    requires next == Elem(last.name, last.keys[keys[n] := v])
    ensures Names(front + [next]) == Names(front + [last]) + [v]
  {
    KeyValuesExtend(last, keys, n, v);
    NamesSnoc(front, last);
    NamesSnoc(front, next);
  }

  lemma KeyNamesAscend(c: Ctx)
    ensures Ascending(KeyNames(c))
  {
    AlphabeticalSorts(SchemaKeys(c.schema));
  }

  lemma {:induction false} ExtendIsReplace(path: seq<Elem>, d: Ctx, name: string, front: seq<Elem>, last: Elem)
    requires path == front + [last] && 0 < d.level <= |KeyNames(d)|
    ensures Extend(path, d, name) == front + [Elem(last.name, last.keys[KeyNames(d)[d.level - 1] := name])]
  {
  }

  lemma {:induction false} ExtendKeyLevel(path: seq<Elem>, d: Ctx, name: string)
    requires path != [] && 0 < d.level <= |KeyNames(d)|
    requires path[|path| - 1].keys.Keys == Firsts(KeyNames(d), d.level - 1)
    ensures LastKeysOk(d, Extend(path, d, name)) && Names(Extend(path, d, name)) == Names(path) + [name]
  {
    var keys := KeyNames(d);
    KeyNamesAscend(d);
    var last, front := path[|path| - 1], path[..|path| - 1];
    var next := Elem(last.name, last.keys[keys[d.level - 1] := name]);
    FirstsStep(keys, d.level - 1);
    assert path == front + [last];
    ExtendIsReplace(path, d, name, front, last);
    LastReplaced(front, last, next, keys, d.level - 1, name);
  }

  lemma {:induction false} ExtendNames(c: Ctx, path: seq<Elem>, d: Ctx, name: string)
    requires LastKeysOk(c, path) && ChildCtx(c, name) == Some(d)
    ensures LastKeysOk(d, Extend(path, d, name)) && Names(Extend(path, d, name)) == Names(path) + [name]
  {
    if d.level == 0 {
      ExtendSchemaLevel(path, d, name);
    } else {
      ExtendKeyLevel(path, d, name);
    }
  }

  lemma Shift(a: Path, p: Path)
    requires p != []
    ensures a + [p[0]] + p[1..] == a + p
  {
  }

  lemma {:induction false} PathFromNames(c: Ctx, path: seq<Elem>, p: Path)
    requires CtxAt(c, p).Some? && LastKeysOk(c, path)
    ensures Names(PathFrom(c, path, p)) == Names(path) + p
    decreases p
  {
    if p != [] {
      var d := ChildCtx(c, p[0]).value;
      var next := Extend(path, d, p[0]);
      ExtendNames(c, path, d, p[0]);
      PathFromNames(d, next, p[1..]);
      Shift(Names(path), p);
    }
  }

  /** The path of an entry walks through exactly the entry's own tree levels. */
  lemma PathWalksItself(root: Schema, p: Path)
    requires SchemaKeys(root) == [] && CtxAt(Ctx(root, 0), p).Some?
    ensures Names(SdcpbPath(root, p)) == p
  {
    PathFromNames(Ctx(root, 0), [], p);
  }

  /** Distinct entries have distinct paths. */
  lemma PathsDistinct(root: Schema, p: Path, q: Path)
    requires SchemaKeys(root) == [] && CtxAt(Ctx(root, 0), p).Some? && CtxAt(Ctx(root, 0), q).Some?
    requires SdcpbPath(root, p) == SdcpbPath(root, q)
    ensures p == q
  {
    PathWalksItself(root, p);
    PathWalksItself(root, q);
  }
}
