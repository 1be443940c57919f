/** Relative paths (pkg/tree/ops/navigatesdcpbpath.go): a list element counts as one step up, whatever
    the number of its key levels. */
module RelativePaths {
  import opened Base
  import opened Tree
  import opened Paths
  import opened Navigation
  import X = Export

  function Dots(n: nat): seq<Elem> {
    seq(n, i requires 0 <= i < n => Elem("..", map[]))
  }

  // ---------------------------------------------------------------- paths, one step at a time

  lemma {:induction false} PathSnoc(c: Ctx, path: seq<Elem>, p: Path, k: string)
    requires CtxAt(c, p + [k]).Some? && CtxAt(c, p).Some?
    ensures PathFrom(c, path, p + [k]) == Extend(PathFrom(c, path, p), CtxAt(c, p + [k]).value, k)
    decreases p
  {
    if p == [] {
      assert p + [k] == [k] && [k][1..] == [];
    } else {
      assert (p + [k])[1..] == p[1..] + [k];
      var d := ChildCtx(c, p[0]).value;
      PathSnoc(d, Extend(path, d, p[0]), p[1..], k);
    }
  }

  /** At a position with a schema of its own the path ends in an element of its own. */
  lemma {:induction false} SchemaStep(s: Schema, p: Path)
    requires CtxAt(Ctx(s, 0), p).Some? && CtxAt(Ctx(s, 0), p).value.level == 0 && p != []
    ensures CtxAt(Ctx(s, 0), Up(p)).Some? && SdcpbPath(s, p) == SdcpbPath(s, Up(p)) + [Elem(p[|p| - 1], map[])]
  {
    assert p == Up(p) + [p[|p| - 1]];
    CtxSnoc(Ctx(s, 0), Up(p), p[|p| - 1]);
    PathSnoc(Ctx(s, 0), [], Up(p), p[|p| - 1]);
  }

  /** The list a position inside its key levels belongs to. */
  function ListOf(s: Schema, u: Path): (a: Path)
    requires CtxAt(Ctx(s, 0), u).Some?
    ensures a <= u
    decreases |u|
  {
    if CtxAt(Ctx(s, 0), u).value.level == 0 || u == [] then u
    else
      assert u == Up(u) + [u[|u| - 1]];
      CtxSnoc(Ctx(s, 0), Up(u), u[|u| - 1]);
      ListOf(s, Up(u))
  }

  lemma {:induction false} KeyStep(s: Schema, u: Path)
    requires SchemaKeys(s) == [] && CtxAt(Ctx(s, 0), u).Some? && CtxAt(Ctx(s, 0), u).value.level > 0
    ensures u != [] && CtxAt(Ctx(s, 0), Up(u)).Some? && CtxAt(Ctx(s, 0), Up(u)).value.level == CtxAt(Ctx(s, 0), u).value.level - 1
    ensures KeyNames(CtxAt(Ctx(s, 0), Up(u)).value) != []
    ensures SdcpbPath(s, Up(u)) != [] ==>
              && |SdcpbPath(s, u)| == |SdcpbPath(s, Up(u))|
              && SdcpbPath(s, u)[..|SdcpbPath(s, u)| - 1] == SdcpbPath(s, Up(u))[..|SdcpbPath(s, u)| - 1]
  {
    assert u == Up(u) + [u[|u| - 1]];
    CtxSnoc(Ctx(s, 0), Up(u), u[|u| - 1]);
    PathSnoc(Ctx(s, 0), [], Up(u), u[|u| - 1]);
  }

  /** It has the same path, keys apart. */
  lemma {:induction false} ListPath(s: Schema, u: Path)
    requires SchemaKeys(s) == [] && CtxAt(Ctx(s, 0), u).Some?
    ensures var a := ListOf(s, u);
            && CtxAt(Ctx(s, 0), a).Some? && CtxAt(Ctx(s, 0), a).value.level == 0
            && |SdcpbPath(s, a)| == |SdcpbPath(s, u)|
            && (SdcpbPath(s, u) != [] ==> SdcpbPath(s, a)[..|SdcpbPath(s, u)| - 1] == SdcpbPath(s, u)[..|SdcpbPath(s, u)| - 1])
            && (CtxAt(Ctx(s, 0), u).value.level > 0 ==> SdcpbPath(s, u) != [])
    decreases |u|
  {
    if CtxAt(Ctx(s, 0), u).value.level > 0 {
      KeyStep(s, u);
      ListPath(s, Up(u));
      NotRootList(s, Up(u));
    }
  }

  /** The root is no list, so that below a list there is an element for its keys. */
  lemma {:induction false} NotRootList(s: Schema, u: Path)
    requires SchemaKeys(s) == [] && CtxAt(Ctx(s, 0), u).Some? && KeyNames(CtxAt(Ctx(s, 0), u).value) != []
    ensures SdcpbPath(s, u) != []
    decreases |u|
  {
    assert Alphabetical([]) == [];
    if CtxAt(Ctx(s, 0), u).value.level == 0 {
      SchemaStep(s, u);
    } else {
      KeyStep(s, u);
      CtxSame(s, u);
      NotRootList(s, Up(u));
    }
  }

  lemma {:induction false} CtxSame(s: Schema, u: Path)
    requires CtxAt(Ctx(s, 0), u).Some? && CtxAt(Ctx(s, 0), u).value.level > 0 && u != []
    ensures CtxAt(Ctx(s, 0), Up(u)).Some? && CtxAt(Ctx(s, 0), Up(u)).value.schema == CtxAt(Ctx(s, 0), u).value.schema
  {
    assert u == Up(u) + [u[|u| - 1]];
    CtxSnoc(Ctx(s, 0), Up(u), u[|u| - 1]);
  }

  // ---------------------------------------------------------------- the tree agrees

  lemma {:induction false} TypedAt(e: Entry, c: Ctx, p: Path)
    requires X.Typed(e, c) && At(e, p).Some?
    ensures CtxAt(c, p).Some? && X.Typed(At(e, p).value, CtxAt(c, p).value)
    decreases p
  {
    if p != [] {
      TypedAt(e.children[p[0]], ChildCtx(c, p[0]).value, p[1..]);
    }
  }

  lemma {:induction false} ThereAbove(e: Entry, a: Path, p: Path)
    requires a <= p && At(e, p).Some?
    ensures At(e, a).Some?
    decreases a
  {
    if a != [] {
      ThereAbove(e.children[a[0]], a[1..], p[1..]);
    }
  }

  /** The nearest ancestor with a schema is the list, if the parent is one of its key levels. */
  lemma {:induction false} AncestorIsList(root: Entry, s: Schema, cur: Path)
    requires X.Typed(root, Ctx(s, 0)) && At(root, cur).Some? && cur != []
    ensures CtxAt(Ctx(s, 0), Up(cur)).Some? && AncestorWithSchema(root, cur) == Some(ListOf(s, Up(cur)))
    decreases |cur|
  {
    var up := Up(cur);
    ThereAbove(root, up, cur);
    TypedAt(root, Ctx(s, 0), up);
    if CtxAt(Ctx(s, 0), up).value.level > 0 {
      assert up != [];
      AncestorIsList(root, s, up);
    }
  }

  // ---------------------------------------------------------------- steps up

  lemma {:induction false} DotsSplit(n: nat, tail: seq<Elem>)
    requires n > 0
    ensures var path := Dots(n) + tail;
            path[0].name == ".." && path[1..] == Dots(n - 1) + tail && (n > 1 ==> path[1].name == "..")
  {
    assert (Dots(n) + tail)[1..] == Dots(n - 1) + tail;
  }

  /** From an entry with a schema, n steps up lead to the entry whose path is n elements shorter; the
      rest of the relative path is navigated from there. */
  lemma {:induction false} StepsUp(root: Entry, s: Schema, p: Path, n: nat, tail: seq<Elem>, r: Option<Path>) returns (q: Path)
    requires SchemaKeys(s) == [] && X.Typed(root, Ctx(s, 0)) && At(root, p).Some?
    requires CtxAt(Ctx(s, 0), p).Some? && CtxAt(Ctx(s, 0), p).value.level == 0
    requires 0 < n <= |SdcpbPath(s, p)| && (tail != [] ==> tail[0].name != "..")
    ensures q <= p && CtxAt(Ctx(s, 0), q).Some? && SdcpbPath(s, q) == SdcpbPath(s, p)[..|SdcpbPath(s, p)| - n]
    ensures MayNavigate(root, p, Dots(n) + tail, r) <==> MayNavigate(root, q, tail, r)
    decreases n
  {
    assert p != [];
    if n == 1 {
      q := Up(p);
      SchemaStep(s, p);
      LastStepUp(root, p, tail, r);
    } else {
      FarStepUp(root, s, p, n, tail, r);
      ShorterPath(s, p, n);
      q := StepsUp(root, s, ListOf(s, Up(p)), n - 1, tail, r);
    }
  }

  lemma {:induction false} LastStepUp(root: Entry, p: Path, tail: seq<Elem>, r: Option<Path>)
    requires p != [] && (tail != [] ==> tail[0].name != "..")
    ensures MayNavigate(root, p, Dots(1) + tail, r) <==> MayNavigate(root, Up(p), tail, r)
  {
    var path := Dots(1) + tail;
    assert path[0].name == ".." && path[1..] == tail && (tail != [] ==> path[1] == tail[0]);
    assert Parent(p) == Some(Up(p));
  }

  lemma {:induction false} FarStepUp(root: Entry, s: Schema, p: Path, n: nat, tail: seq<Elem>, r: Option<Path>)
    requires X.Typed(root, Ctx(s, 0)) && At(root, p).Some? && p != [] && n > 1
    ensures CtxAt(Ctx(s, 0), Up(p)).Some? && At(root, ListOf(s, Up(p))).Some?
    ensures MayNavigate(root, p, Dots(n) + tail, r) <==> MayNavigate(root, ListOf(s, Up(p)), Dots(n - 1) + tail, r)
  {
    DotsSplit(n, tail);
    AncestorIsList(root, s, p);
    ThereAbove(root, ListOf(s, Up(p)), p);
  }

  lemma {:induction false} ShorterPath(s: Schema, p: Path, n: nat)
    requires SchemaKeys(s) == [] && CtxAt(Ctx(s, 0), p).Some? && CtxAt(Ctx(s, 0), p).value.level == 0 && p != [] && 1 < n <= |SdcpbPath(s, p)|
    ensures CtxAt(Ctx(s, 0), Up(p)).Some?
    ensures var a := ListOf(s, Up(p));
            && CtxAt(Ctx(s, 0), a).Some? && CtxAt(Ctx(s, 0), a).value.level == 0 && |SdcpbPath(s, a)| == |SdcpbPath(s, p)| - 1
            && SdcpbPath(s, a)[..|SdcpbPath(s, a)| - (n - 1)] == SdcpbPath(s, p)[..|SdcpbPath(s, p)| - n]
  {
    SchemaStep(s, p);
    ListPath(s, Up(p));
    var up, pa, m := SdcpbPath(s, Up(p)), SdcpbPath(s, ListOf(s, Up(p))), |SdcpbPath(s, p)| - n;
    assert SdcpbPath(s, p)[..m] == up[..m];
    assert pa[..|pa| - 1][..m] == pa[..m];
    assert up[..|up| - 1][..m] == up[..m];
  }

  function Heres(n: nat): seq<Elem> {
    seq(n, i requires 0 <= i < n => Elem(".", map[]))
  }

  /** Any number of "." in front of a path makes no difference. */
  lemma {:induction false} HereStays(root: Entry, cur: Path, n: nat, tail: seq<Elem>, r: Option<Path>)
    ensures MayNavigate(root, cur, Heres(n) + tail, r) <==> MayNavigate(root, cur, tail, r)
    decreases n
  {
    if n == 0 {
      assert Heres(0) + tail == tail;
    } else {
      assert (Heres(n) + tail)[0].name == "." && (Heres(n) + tail)[1..] == Heres(n - 1) + tail;
      HereStays(root, cur, n - 1, tail, r);
    }
  }

  /** More steps up than the path has elements lead nowhere. */
  lemma {:induction false} BeyondTheRoot(root: Entry, s: Schema, p: Path, n: nat, r: Option<Path>)
    requires SchemaKeys(s) == [] && X.Typed(root, Ctx(s, 0)) && At(root, p).Some?
    requires CtxAt(Ctx(s, 0), p).Some? && CtxAt(Ctx(s, 0), p).value.level == 0 && n > |SdcpbPath(s, p)|
    ensures MayNavigate(root, p, Dots(n), r) <==> r == None
    decreases n
  {
    DotsSplit(n, []);
    assert Dots(n) + [] == Dots(n) && Dots(n - 1) + [] == Dots(n - 1);
    if p == [] {
      assert AncestorWithSchema(root, p) == None && Parent(p) == None;
    } else {
      SchemaStep(s, p);
      AncestorIsList(root, s, p);
      ListPath(s, Up(p));
      ThereAbove(root, ListOf(s, Up(p)), p);
      assert n > 1;
      BeyondTheRoot(root, s, ListOf(s, Up(p)), n - 1, r);
    }
  }

  // ---------------------------------------------------------------- names that are not plain

  predicate Special(name: string) {
    name == "." || name == ".."
  }

  /** How far down a list of names can lead: special names lead nowhere new. */
  function Reach(names: seq<string>): nat {
    if names == [] then 0 else (if Special(names[0]) then 0 else 1) + Reach(names[1..])
  }

  lemma {:induction false} ReachOfBoth(a: seq<string>, b: seq<string>)
    ensures Reach(a + b) == Reach(a) + Reach(b)
    decreases a
  {
    if a == [] {
      assert a + b == b;
    } else {
      assert (a + b)[0] == a[0] && (a + b)[1..] == a[1..] + b;
      ReachOfBoth(a[1..], b);
    }
  }

  lemma {:induction false} PlainReach(names: seq<string>)
    ensures Reach(names) <= |names| && (Reach(names) == |names| <==> Plain(names))
  {
    if names != [] {
      PlainReach(names[1..]);
      assert names == [names[0]] + names[1..];
      assert Plain(names) ==> Plain(names[1..]) by {
        assert forall i | 0 <= i < |names[1..]| :: names[1..][i] == names[i + 1];
      }
      if Plain(names[1..]) && !Special(names[0]) {
        forall i | 0 <= i < |names| ensures !Special(names[i]) {
          if i > 0 {
            assert names[i] == names[1..][i - 1];
          }
        }
      }
    }
  }

  lemma {:induction false} NamesReach(root: Entry, cur: Path, names: seq<string>, r: Path)
    requires MayStepNames(root, cur, names, Some(r))
    ensures |r| <= |cur| + Reach(names)
    decreases names
  {
    if names != [] {
      var next :| MayStepName(root, cur, names[0], next) && (if next.None? then Some(r) == None else MayStepNames(root, next.value, names[1..], Some(r)));
      assert next.Some? && |next.value| <= |cur| + (if Special(names[0]) then 0 else 1);
      NamesReach(root, next.value, names[1..], r);
    }
  }

  lemma {:induction false} ElemReach(root: Entry, cur: Path, e: Elem, r: Path)
    requires !Special(e.name) && MayElem(root, cur, e, Some(r))
    ensures |r| <= |cur| + Reach(ElemNames(e))
  {
    var child :| MayStep(root, cur, e.name, child) && (if child.None? then Some(r) == None else MayStepNames(root, child.value, KeyValues(e), Some(r)));
    NamesReach(root, child.value, KeyValues(e), r);
    assert ElemNames(e)[0] == e.name && ElemNames(e)[1..] == KeyValues(e);
  }

  /** No navigation leads further down than the plain names of its path. */
  lemma {:induction false} NavigationReach(root: Entry, cur: Path, path: seq<Elem>, r: Path)
    requires MayNavigate(root, cur, path, Some(r))
    ensures |r| <= |cur| + Reach(Names(path))
    decreases |path|
  {
    if path != [] {
      NamesCons(path);
      ReachOfBoth(ElemNames(path[0]), Names(path[1..]));
      if path[0].name == "." {
        NavigationReach(root, cur, path[1..], r);
      } else if path[0].name == ".." {
        var up := (if |path| > 1 && path[1].name == ".." then AncestorWithSchema(root, cur) else Parent(cur)).value;
        NavigationReach(root, up, path[1..], r);
      } else {
        var next :| MayElem(root, cur, path[0], next) && (if next.None? then Some(r) == None else MayNavigate(root, next.value, path[1..], Some(r)));
        ElemReach(root, cur, path[0], next.value);
        NavigationReach(root, next.value, path[1..], r);
      }
    }
  }

  /** The path of an entry can be navigated back to it, if some look-ups visit it, exactly when no key
      value on the way is "." or "..": those are taken for steps. */
  lemma {:induction false} RoundTripNeedsPlain(root: Entry, s: Schema, p: Path)
    requires SchemaKeys(s) == [] && CtxAt(Ctx(s, 0), p).Some?
    ensures MayNavigate(root, [], SdcpbPath(s, p), Some(p)) <==> MayReach(root, p) && Plain(p)
  {
    PathWalksItself(s, p);
    PlainReach(p);
    if MayNavigate(root, [], SdcpbPath(s, p), Some(p)) {
      NavigationReach(root, [], SdcpbPath(s, p), p);
    }
    if Plain(p) {
      PathRoundTrip(root, s, p);
    }
  }

  /** A root with the list "l", keyed by "k", that holds the element "..". */
  function DotList(): Schema {
    Container(["k"], false, map["k" := Field("string")], map[])
  }

  function DotRoot(): Schema {
    Container([], false, map["l" := DotList()], map[])
  }

  function DotTree(): Entry {
    Entry(Some(DotRoot()), map["l" := Entry(Some(DotList()), map[".." := Entry(None, map[], [], map[], {})], [], map[], {})], [], map[], {})
  }

  lemma {:induction false} DotPath()
    ensures CtxAt(Ctx(DotRoot(), 0), ["l", ".."]).Some? && SdcpbPath(DotRoot(), ["l", ".."]) == [Elem("l", map["k" := ".."])]
  {
    var p := ["l", ".."];
    assert p[1..] == [".."] && [".."][1..] == [];
    assert Alphabetical([]) == [] && ["k"][1..] == [] && Alphabetical(["k"]) == ["k"];
    var list, inside := Ctx(DotList(), 0), Ctx(DotList(), 1);
    assert ChildCtx(Ctx(DotRoot(), 0), "l") == Some(list) && ChildCtx(list, "..") == Some(inside);
    assert CtxAt(list, [".."]).Some?;
    assert Extend([], list, "l") == [Elem("l", map[])];
    assert PathFrom(inside, Extend([Elem("l", map[])], inside, ".."), []) == Extend([Elem("l", map[])], inside, "..");
    assert Extend([Elem("l", map[])], inside, "..") == [Elem("l", map["k" := ".."])];
  }

  /** The failing input: the element is there, and its path leads to the root instead. */
  lemma {:induction false} DotKeyIsMissed()
    ensures SchemaKeys(DotRoot()) == [] && CtxAt(Ctx(DotRoot(), 0), ["l", ".."]).Some?
    ensures MustReach(DotTree(), ["l", ".."]) && !MayNavigate(DotTree(), [], SdcpbPath(DotRoot(), ["l", ".."]), Some(["l", ".."]))
    ensures MayNavigate(DotTree(), [], SdcpbPath(DotRoot(), ["l", ".."]), Some([]))
  {
    var p := ["l", ".."];
    assert p[1..] == [".."] && [".."][1..] == [];
    assert Alphabetical([]) == [] && ["k"][1..] == [] && Alphabetical(["k"]) == ["k"];
    assert ChildCtx(Ctx(DotRoot(), 0), "l") == Some(Ctx(DotList(), 0)) && ChildCtx(Ctx(DotList(), 0), "..") == Some(Ctx(DotList(), 1));
    assert CtxAt(Ctx(DotList(), 0), [".."]).Some?;
    assert MustReach(DotTree().children["l"], [".."]);
    assert !Plain(p) by {
      assert p[1] == "..";
    }
    RoundTripNeedsPlain(DotTree(), DotRoot(), p);
    DotPath();
    var e := Elem("l", map["k" := ".."]);
    assert KeyValues(e) == [".."] by {
      PathWalksItself(DotRoot(), p);
      NamesOne(e);
      assert KeyValues(e) == ElemNames(e)[1..];
    }
    assert MayStep(DotTree(), [], "l", Some(["l"])) by {
      assert [] + ["l"] == ["l"];
    }
    assert MayStepName(DotTree(), ["l"], "..", Some([]));
    assert MayStepNames(DotTree(), ["l"], [".."], Some([])) by {
      assert MayStepNames(DotTree(), [], [".."][1..], Some([]));
    }
    assert MayElem(DotTree(), [], e, Some([]));
    assert [e][1..] == [];
  }
}
