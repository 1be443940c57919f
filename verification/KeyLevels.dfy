/** List elements behind their key levels: all of them (pkg/tree/ops/getlistchilds.go) and those a
    partial key map selects (pkg/tree/ops/filterchilds.go). An element is named by the names of
    its key levels below the list. */
module KeyLevels {
  import opened Base
  import opened Tree
  import opened Paths

  predicate NoDuplicates(ps: seq<Path>) {
    forall i, j | 0 <= i < j < |ps| :: ps[i] != ps[j]
  }

  /** The level's name agrees with the key map, or the map leaves that key open. */
  predicate Agrees(names: seq<string>, keys: map<string, string>, p: Path) {
    forall i | 0 <= i < |p| && i < |names| && names[i] in keys :: p[i] == keys[names[i]]
  }

  /** ps lists, once each, the entries n levels below e that agree with the key map. */
  ghost predicate ListsLevel(e: Entry, names: seq<string>, keys: map<string, string>, n: nat, ps: seq<Path>) {
    && NoDuplicates(ps)
    && forall p :: p in ps <==> |p| == n && At(e, p).Some? && Agrees(names, keys, p)
  }

  lemma AtPrefix(e: Entry, p: Path, k: string)
    ensures At(e, p + [k]).Some? <==> At(e, p).Some? && k in At(e, p).value.children
    decreases p
  {
    if p == [] {
      assert [k][1..] == [];
    } else {
      assert (p + [k])[1..] == p[1..] + [k];
      if p[0] in e.children {
        AtPrefix(e.children[p[0]], p[1..], k);
      }
    }
  }

  lemma AgreesStep(names: seq<string>, keys: map<string, string>, p: Path, k: string)
    requires |p| < |names|
    ensures Agrees(names, keys, p + [k]) <==>
            Agrees(names, keys, p) && (names[|p|] in keys ==> k == keys[names[|p|]])
  {
    if Agrees(names, keys, p + [k]) {
      forall i | 0 <= i < |p| && i < |names| && names[i] in keys ensures p[i] == keys[names[i]] {
        assert (p + [k])[i] == p[i];
      }
      assert (p + [k])[|p|] == k;
    }
  }

  /** q ends in an existing entry whose name the key map admits. */
  predicate Admits(e: Entry, only: Option<string>, q: Path) {
    q != [] && At(e, q).Some? && (only.Some? ==> q[|q| - 1] == only.value)
  }

  lemma ChildOfParent(e: Entry, q: Path)
    requires q != [] && At(e, q).Some?
    ensures q == Up(q) + [q[|q| - 1]] && At(e, Up(q)).Some? && q[|q| - 1] in At(e, Up(q)).value.children
  {
    assert q == Up(q) + [q[|q| - 1]];
    AtPrefix(e, Up(q), q[|q| - 1]);
  }

  lemma Join(a: seq<Path>, b: seq<Path>)
    requires NoDuplicates(a) && NoDuplicates(b) && forall q | q in b :: q !in a
    ensures NoDuplicates(a + b)
  {
    var ab := a + b;
    forall i, j | 0 <= i < j < |ab| ensures ab[i] != ab[j] {
      if i < |a| <= j {
        assert ab[j] in b && ab[i] in a;
      }
    }
  }

  lemma AdmitsChild(e: Entry, p: Path, only: Option<string>, q: Path)
    requires At(e, p).Some?
    ensures Admits(e, only, q) && Up(q) == p <==>
            q != [] && q == p + [q[|q| - 1]] && q[|q| - 1] in At(e, p).value.children && (only.Some? ==> q[|q| - 1] == only.value)
  {
    if q != [] {
      assert q == Up(q) + [q[|q| - 1]];
      AtPrefix(e, Up(q), q[|q| - 1]);
    }
  }

  /** One entry's children that the key map admits, in any order. */
  method Admitted(e: Entry, p: Path, only: Option<string>) returns (next: seq<Path>)
    requires At(e, p).Some?
    ensures NoDuplicates(next)
    ensures forall q :: q in next <==> Admits(e, only, q) && Up(q) == p
  {
    var n := At(e, p).value;
    var all := if only.None? then n.children.Keys else if only.value in n.children then {only.value} else {};
    var todo := all;
    next := [];
    while todo != {}
      invariant todo <= all && NoDuplicates(next)
      invariant forall q | q in next :: q != [] && q == p + [q[|q| - 1]] && q[|q| - 1] in all - todo
      invariant forall k | k in all - todo :: p + [k] in next
      decreases todo
    {
      var k :| k in todo;
      var q := p + [k];
      assert q[|q| - 1] == k && q !in next;
      Join(next, [q]);
      next := next + [q];
      todo := todo - {k};
    }
    forall q ensures q in next <==> Admits(e, only, q) && Up(q) == p {
      AdmitsChild(e, p, only, q);
    }
  }

  lemma NextLevel(e: Entry, names: seq<string>, keys: map<string, string>, n: nat, ps: seq<Path>, only: Option<string>, next: seq<Path>)
    requires n < |names| && ListsLevel(e, names, keys, n, ps) && NoDuplicates(next)
    requires only == if names[n] in keys then Some(keys[names[n]]) else None
    requires forall q :: q in next <==> Admits(e, only, q) && Up(q) in ps
    ensures ListsLevel(e, names, keys, n + 1, next)
  {
    forall q ensures q in next <==> |q| == n + 1 && At(e, q).Some? && Agrees(names, keys, q) {
      if q != [] && At(e, q).Some? {
        ChildOfParent(e, q);
        if |q| == n + 1 {
          AgreesStep(names, keys, Up(q), q[n]);
        }
      }
    }
  }

  /** One key level: every entry of the level replaced by its admitted children. */
  method Expand(e: Entry, current: seq<Path>, only: Option<string>) returns (next: seq<Path>)
    requires NoDuplicates(current) && forall p | p in current :: At(e, p).Some?
    ensures NoDuplicates(next)
    ensures forall q :: q in next <==> Admits(e, only, q) && Up(q) in current
  {
    next := [];
    for i := 0 to |current|
      invariant NoDuplicates(next)
      invariant forall q :: q in next <==> Admits(e, only, q) && Up(q) in current[..i]
    {
      assert current[i] in current;
      var more := Admitted(e, current[i], only);
      assert current[..i + 1] == current[..i] + [current[i]];
      assert current[i] !in current[..i];
      assert forall q | q in more :: q !in next;
      Join(next, more);
      next := next + more;
    }
    assert current[..|current|] == current;
  }

  lemma TopLevel(e: Entry, names: seq<string>, keys: map<string, string>)
    ensures ListsLevel(e, names, keys, 0, [[]])
  {
    var top: seq<Path> := [[]];
    assert top[0] in top;
    forall p: Path | |p| == 0 ensures p == top[0] {
    }
  }

  /** FilterChilds: exactly the elements that agree with the key map, once each; a key level
      the map does not name is a wildcard. */
  method FilterChilds(e: Entry, keys: map<string, string>) returns (r: Option<seq<Path>>)
    ensures r.None? <==> e.schema.None?
    ensures r.Some? ==> ListsLevel(e, Alphabetical(Keys(e)), keys, |Alphabetical(Keys(e))|, r.value)
  {
    if e.schema.None? {
      return None;
    }
    var names := Alphabetical(Keys(e));
    var current: seq<Path> := [[]];
    TopLevel(e, names, keys);
    for n := 0 to |names|
      invariant ListsLevel(e, names, keys, n, current)
    {
      var only := if names[n] in keys then Some(keys[names[n]]) else None;
      var next := Expand(e, current, only);
      NextLevel(e, names, keys, n, current, only, next);
      current := next;
    }
    return Some(current);
  }

  /** GetListChilds: all elements of a list, once each; an error for anything but a list. */
  method GetListChilds(e: Entry) returns (r: Option<seq<Path>>)
    ensures r.None? <==> Keys(e) == []
    ensures r.Some? ==> ListsLevel(e, Alphabetical(Keys(e)), map[], |Alphabetical(Keys(e))|, r.value)
  {
    if Keys(e) == [] {
      return None;
    }
    ghost var names := Alphabetical(Keys(e));
    var current: seq<Path> := [[]];
    TopLevel(e, names, map[]);
    for n := 0 to |Alphabetical(Keys(e))|
      invariant ListsLevel(e, names, map[], n, current)
    {
      var next := Expand(e, current, None);
      NextLevel(e, names, map[], n, current, None, next);
      current := next;
    }
    return Some(current);
  }

  /** Filtering returns exactly the list's elements whose key levels agree with the map. */
  lemma FilterIsSelection(e: Entry, keys: map<string, string>, all: seq<Path>, some: seq<Path>, p: Path)
    requires ListsLevel(e, Alphabetical(Keys(e)), map[], |Alphabetical(Keys(e))|, all)
    requires ListsLevel(e, Alphabetical(Keys(e)), keys, |Alphabetical(Keys(e))|, some)
    ensures p in some <==> p in all && Agrees(Alphabetical(Keys(e)), keys, p)
  {
    assert p in some <==> |p| == |Alphabetical(Keys(e))| && At(e, p).Some? && Agrees(Alphabetical(Keys(e)), keys, p);
    assert p in all <==> |p| == |Alphabetical(Keys(e))| && At(e, p).Some? && Agrees(Alphabetical(Keys(e)), map[], p);
  }

  /** The order in which the schema declares the keys makes no difference. */
  lemma FilterIgnoresDeclarationOrder(e: Entry, ks: seq<string>, keys: map<string, string>, r: seq<Path>)
    requires e.schema.Some? && e.schema.value.Container? && forall y :: y in ks <==> y in e.schema.value.keys
    requires ListsLevel(e, Alphabetical(Keys(e)), keys, |Alphabetical(Keys(e))|, r)
    ensures var e' := e.(schema := Some(e.schema.value.(keys := ks)));
            ListsLevel(e', Alphabetical(Keys(e')), keys, |Alphabetical(Keys(e'))|, r)
  {
    var e' := e.(schema := Some(e.schema.value.(keys := ks)));
    DeclarationOrderIrrelevant(ks, Keys(e));
    forall p ensures At(e', p).Some? <==> At(e, p).Some? {
      assert p != [] ==> At(e', p) == At(e, p);
    }
  }
}
