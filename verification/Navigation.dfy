/** Navigating a schema path through the active children (pkg/tree/ops/navigatesdcpbpath.go,
    pkg/tree/ops/getfirstancesterwithschema.go). Positions are tree paths from the root. */
module Navigation {
  import opened Base
  import opened Tree
  import opened Paths
  import C = Choices
  import Lookups

  function Parent(cur: Path): Option<Path> {
    if cur == [] then None else Some(cur[..|cur| - 1])
  }

  /** The nearest proper ancestor that carries a schema. */
  function AncestorWithSchema(root: Entry, cur: Path): (r: Option<Path>)
    ensures r.Some? ==> r.value < cur
    decreases |cur|
  {
    if cur == [] then None
    else
      var up := cur[..|cur| - 1];
      if At(root, up).Some? && At(root, up).value.schema.Some? then Some(up)
      else AncestorWithSchema(root, up)
  }

  /** The upward loop of the source, counting levels. */
  method FirstAncestorWithSchema(root: Entry, cur: Path) returns (r: Option<Path>, level: nat)
    ensures r == AncestorWithSchema(root, cur)
    ensures r.Some? ==> level == |cur| - |r.value|
    ensures r.Some? ==> forall q: Path | r.value < q < cur :: !(At(root, q).Some? && At(root, q).value.schema.Some?)
    ensures r.None? ==> level == 0
  {
    var here := cur;
    level := 0;
    while here != []
      invariant here <= cur && level == |cur| - |here|
      invariant AncestorWithSchema(root, cur) == AncestorWithSchema(root, here)
      invariant forall q: Path | here <= q < cur :: !(At(root, q).Some? && At(root, q).value.schema.Some?)
      decreases |here|
    {
      ghost var below := here;
      here := here[..|here| - 1];
      level := level + 1;
      if At(root, here).Some? && At(root, here).value.schema.Some? {
        forall q: Path | here < q < cur ensures !(At(root, q).Some? && At(root, q).value.schema.Some?) {
          PrefixStep(here, below, q, cur);
        }
        return Some(here), level;
      }
      forall q: Path | here <= q < cur ensures !(At(root, q).Some? && At(root, q).value.schema.Some?) {
        if q != here {
          PrefixStep(here, below, q, cur);
        }
      }
    }
    return None, 0;
  }

  lemma PrefixStep(here: Path, below: Path, q: Path, cur: Path)
    requires |below| == |here| + 1 && here < below <= cur && here < q < cur
    ensures below <= q
  {
  }

  // ---------------------------------------------------------------- navigation, whatever way ties break

  /** What a step to a child may give: every step looks the active children up anew. */
  ghost predicate MayStep(root: Entry, cur: Path, name: string, r: Option<Path>) {
    match At(root, cur)
    case None => r == None
    case Some(n) => (r == Some(cur + [name]) && MayVisit(n, name)) || (r == None && !MustVisit(n, name))
  }

  /** Navigation by a single name, as done for each key value. */
  ghost predicate MayStepName(root: Entry, cur: Path, name: string, r: Option<Path>) {
    if name == "." then r == Some(cur)
    else if name == ".." then r == Parent(cur)
    else MayStep(root, cur, name, r)
  }

  ghost predicate MayStepNames(root: Entry, cur: Path, names: seq<string>, r: Option<Path>)
    decreases names
  {
    if names == [] then r == Some(cur)
    else exists next :: MayStepName(root, cur, names[0], next) && (if next.None? then r == None else MayStepNames(root, next.value, names[1..], r))
  }

  ghost predicate MayNavigate(root: Entry, cur: Path, path: seq<Elem>, r: Option<Path>)
    decreases |path|
  {
    if path == [] then r == Some(cur)
    else if path[0].name == "." then MayNavigate(root, cur, path[1..], r)
    else if path[0].name == ".." then
      match (if |path| > 1 && path[1].name == ".." then AncestorWithSchema(root, cur) else Parent(cur))
      case None => r == None
      case Some(up) => MayNavigate(root, up, path[1..], r)
    else
      exists next :: MayElem(root, cur, path[0], next) && (if next.None? then r == None else MayNavigate(root, next.value, path[1..], r))
  }

  /** One path element: the child of that name, then the levels of its keys. */
  ghost predicate MayElem(root: Entry, cur: Path, e: Elem, r: Option<Path>) {
    exists child :: MayStep(root, cur, e.name, child) && (if child.None? then r == None else MayStepNames(root, child.value, KeyValues(e), r))
  }

  predicate Plain(names: seq<string>) {
    forall i | 0 <= i < |names| :: names[i] != "." && names[i] != ".."
  }

  lemma {:induction false} MustIsMay(e: Entry, k: string)
    requires MustVisit(e, k)
    ensures MayVisit(e, k)
  {
    if e.schema.Some? {
      forall ch | ch in e.choices && k in e.choices[ch].caseOf
        ensures C.IsBestCase(e.choices[ch], C.Now, Some(e.choices[ch].caseOf[k]))
      {
        assert C.IsBestCase(e.choices[ch], C.Now, C.Best(e.choices[ch], C.Now));
      }
    }
  }

  /** Where walking plain names may lead: to their end if some look-ups reach it, nowhere if some
      do not. */
  ghost predicate Arrives(e: Entry, cur: Path, names: seq<string>, r: Option<Path>) {
    (r == Some(cur + names) && MayReach(e, names)) || (r == None && !MustReach(e, names))
  }

  lemma {:induction false} StepsExactly(root: Entry, e: Entry, cur: Path, names: seq<string>, r: Option<Path>)
    requires Plain(names) && At(root, cur) == Some(e)
    ensures MayStepNames(root, cur, names, r) <==> Arrives(e, cur, names, r)
    decreases names
  {
    if names == [] {
      assert cur + names == cur;
    } else {
      var k := names[0];
      var there := cur + [k];
      assert there + names[1..] == cur + names;
      if k in e.children {
        AtChild(root, cur, k);
        StepsExactly(root, e.children[k], there, names[1..], r);
      }
      if MayStepNames(root, cur, names, r) {
        var next :| MayStepName(root, cur, k, next) && (if next.None? then r == None else MayStepNames(root, next.value, names[1..], r));
      }
      if Arrives(e, cur, names, r) {
        ArrivesSteps(root, e, cur, names, r);
      }
    }
  }

  lemma {:induction false} ArrivesSteps(root: Entry, e: Entry, cur: Path, names: seq<string>, r: Option<Path>)
    requires names != [] && Plain(names) && At(root, cur) == Some(e) && Arrives(e, cur, names, r)
    requires names[0] in e.children ==>
               (MayStepNames(root, cur + [names[0]], names[1..], r) <==> Arrives(e.children[names[0]], cur + [names[0]], names[1..], r))
    ensures MayStepNames(root, cur, names, r)
  {
    var k, there := names[0], cur + [names[0]];
    assert there + names[1..] == cur + names;
    if r == None && !MustVisit(e, k) {
      assert MayStepName(root, cur, k, None);
    } else {
      if MustVisit(e, k) {
        MustIsMay(e, k);
      }
      assert MayStepName(root, cur, k, Some(there));
    }
  }

  /** Walking names one after the other. */
  lemma {:induction false} StepsCompose(root: Entry, cur: Path, a: seq<string>, b: seq<string>, r: Option<Path>)
    ensures MayStepNames(root, cur, a + b, r) <==>
            exists m :: MayStepNames(root, cur, a, m) && (if m.None? then r == None else MayStepNames(root, m.value, b, r))
    decreases a
  {
    if a == [] {
      assert a + b == b;
      assert MayStepNames(root, cur, a, Some(cur));
    } else {
      assert (a + b)[0] == a[0] && (a + b)[1..] == a[1..] + b;
      forall next: Option<Path> | next.Some?
        ensures MayStepNames(root, next.value, a[1..] + b, r) <==>
                exists m :: MayStepNames(root, next.value, a[1..], m) && (if m.None? then r == None else MayStepNames(root, m.value, b, r))
      {
        StepsCompose(root, next.value, a[1..], b, r);
      }
      if MayStepNames(root, cur, a + b, r) {
        ComposeDown(root, cur, a, b, r);
      }
      if m :| MayStepNames(root, cur, a, m) && (if m.None? then r == None else MayStepNames(root, m.value, b, r)) {
        ComposeUp(root, cur, a, b, r, m);
      }
    }
  }

  lemma {:induction false} ComposeDown(root: Entry, cur: Path, a: seq<string>, b: seq<string>, r: Option<Path>)
    requires a != [] && MayStepNames(root, cur, a + b, r)
    requires forall next: Option<Path> | next.Some? ::
               MayStepNames(root, next.value, a[1..] + b, r) ==>
               exists m :: MayStepNames(root, next.value, a[1..], m) && (if m.None? then r == None else MayStepNames(root, m.value, b, r))
    ensures exists m :: MayStepNames(root, cur, a, m) && (if m.None? then r == None else MayStepNames(root, m.value, b, r))
  {
    assert (a + b)[0] == a[0] && (a + b)[1..] == a[1..] + b;
    var next :| MayStepName(root, cur, a[0], next) && (if next.None? then r == None else MayStepNames(root, next.value, a[1..] + b, r));
    if next.None? {
      assert MayStepNames(root, cur, a, None);
    } else {
      var m :| MayStepNames(root, next.value, a[1..], m) && (if m.None? then r == None else MayStepNames(root, m.value, b, r));
      assert MayStepNames(root, cur, a, m);
    }
  }

  lemma {:induction false} ComposeUp(root: Entry, cur: Path, a: seq<string>, b: seq<string>, r: Option<Path>, m: Option<Path>)
    requires a != [] && MayStepNames(root, cur, a, m) && (if m.None? then r == None else MayStepNames(root, m.value, b, r))
    requires forall next: Option<Path> | next.Some? ::
               (exists m :: MayStepNames(root, next.value, a[1..], m) && (if m.None? then r == None else MayStepNames(root, m.value, b, r))) ==>
               MayStepNames(root, next.value, a[1..] + b, r)
    ensures MayStepNames(root, cur, a + b, r)
  {
    assert (a + b)[0] == a[0] && (a + b)[1..] == a[1..] + b;
    var next :| MayStepName(root, cur, a[0], next) && (if next.None? then m == None else MayStepNames(root, next.value, a[1..], m));
  }

  lemma Assoc(a: Path, b: Path, c: Path)
    ensures a + b + c == a + (b + c)
  {
  }

  lemma {:induction false} NamesOne(e: Elem)
    ensures Names([e]) == ElemNames(e)
  {
    NamesSnoc([], e);
    assert [] + [e] == [e];
  }

  lemma {:induction false} NamesCons(path: seq<Elem>)
    requires path != []
    ensures Names(path) == ElemNames(path[0]) + Names(path[1..])
    decreases |path|, 1
  {
    if |path| == 1 {
      NamesOne(path[0]);
      assert path == [path[0]] && path[1..] == [];
    } else {
      NamesConsLast(path, path[..|path| - 1]);
    }
  }

  lemma {:induction false} NamesConsLast(path: seq<Elem>, front: seq<Elem>)
    requires |path| > 1 && front == path[..|path| - 1]
    ensures Names(path) == ElemNames(path[0]) + Names(path[1..])
    decreases |path|, 0
  {
    var last := path[|path| - 1];
    assert path == front + [last] && path[1..] == front[1..] + [last];
    assert Names(path) == Names(front) + ElemNames(last) by { NamesSnoc(front, last); }
    assert Names(path[1..]) == Names(front[1..]) + ElemNames(last) by { NamesSnoc(front[1..], last); }
    assert Names(front) == ElemNames(front[0]) + Names(front[1..]) by { NamesCons(front); }
    Assoc(ElemNames(front[0]), Names(front[1..]), ElemNames(last));
  }

  lemma {:induction false} ElemWalks(root: Entry, cur: Path, e: Elem, r: Option<Path>)
    requires e.name != "." && e.name != ".."
    ensures MayElem(root, cur, e, r) <==> MayStepNames(root, cur, ElemNames(e), r)
  {
    assert ElemNames(e)[0] == e.name && ElemNames(e)[1..] == KeyValues(e);
    if MayElem(root, cur, e, r) {
      var child :| MayStep(root, cur, e.name, child) && (if child.None? then r == None else MayStepNames(root, child.value, KeyValues(e), r));
      assert MayStepName(root, cur, ElemNames(e)[0], child);
    }
    if MayStepNames(root, cur, ElemNames(e), r) {
      var next :| MayStepName(root, cur, ElemNames(e)[0], next) && (if next.None? then r == None else MayStepNames(root, next.value, ElemNames(e)[1..], r));
      assert MayStep(root, cur, e.name, next);
    }
  }

  /** Without special names, navigation may lead exactly where walking the path's tree levels may. */
  lemma {:induction false} NavigateWalks(root: Entry, cur: Path, path: seq<Elem>, r: Option<Path>)
    requires Plain(Names(path))
    ensures MayNavigate(root, cur, path, r) <==> MayStepNames(root, cur, Names(path), r)
    decreases |path|
  {
    if path != [] {
      NamesCons(path);
      var head, rest := ElemNames(path[0]), Names(path[1..]);
      assert Names(path)[0] == path[0].name;
      assert forall i | 0 <= i < |rest| :: rest[i] == Names(path)[|head| + i];
      StepsCompose(root, cur, head, rest, r);
      forall m ensures MayElem(root, cur, path[0], m) <==> MayStepNames(root, cur, head, m) {
        ElemWalks(root, cur, path[0], m);
      }
      forall m: Option<Path> | m.Some? ensures MayNavigate(root, m.value, path[1..], r) <==> MayStepNames(root, m.value, rest, r) {
        NavigateWalks(root, m.value, path[1..], r);
      }
    }
  }

  /** Where navigating the path of an entry from the root may lead. */
  lemma {:induction false} NavigatesExactly(root: Entry, schema: Schema, p: Path, r: Option<Path>)
    requires SchemaKeys(schema) == [] && CtxAt(Ctx(schema, 0), p).Some? && Plain(p)
    ensures MayNavigate(root, [], SdcpbPath(schema, p), r) <==> (r == Some(p) && MayReach(root, p)) || (r == None && !MustReach(root, p))
  {
    PathWalksItself(schema, p);
    NavigateWalks(root, [], SdcpbPath(schema, p), r);
    StepsExactly(root, root, [], p, r);
    assert [] + p == p;
  }

  /** Path round trip: navigating the path of an entry from the root leads to that entry or
      nowhere; to that entry whatever way ties break if and only if every look-up on the way visits
      it, and in some way if and only if some look-ups do. */
  lemma {:induction false} PathRoundTrip(root: Entry, schema: Schema, p: Path)
    requires SchemaKeys(schema) == [] && CtxAt(Ctx(schema, 0), p).Some? && Plain(p)
    ensures (forall r | MayNavigate(root, [], SdcpbPath(schema, p), r) :: r == Some(p)) <==> MustReach(root, p)
    ensures MayNavigate(root, [], SdcpbPath(schema, p), Some(p)) <==> MayReach(root, p)
    ensures forall r | MayNavigate(root, [], SdcpbPath(schema, p), r) :: r == None || r == Some(p)
  {
    NavigatesExactly(root, schema, p, None);
    NavigatesExactly(root, schema, p, Some(p));
    forall r | MayNavigate(root, [], SdcpbPath(schema, p), r)
      ensures r == None || r == Some(p)
      ensures MustReach(root, p) ==> r == Some(p)
    {
      NavigatesExactly(root, schema, p, r);
    }
  }

  /** Without ties an entry is found at its path exactly when it is actively reachable. */
  lemma {:induction false} PathRoundTripWithoutTies(root: Entry, schema: Schema, p: Path, r: Option<Path>)
    requires SchemaKeys(schema) == [] && CtxAt(Ctx(schema, 0), p).Some? && Plain(p)
    requires Lookups.NoTies(root) && MayNavigate(root, [], SdcpbPath(schema, p), r)
    ensures r == if ActiveAt(root, p).Some? then Some(p) else None
  {
    NavigatesExactly(root, schema, p, r);
    Lookups.OneWayDown(root, p);
  }
}
