/** Copying a tree (DeepCopy of pkg/tree/sharedEntryAttributes.go, pkg/tree/api/leaf_variants.go
    and pkg/tree/api/choice_case_resolver.go). */
module Copies {
  import opened Base
  import opened Tree
  import opened Growth
  import C = Choices
  import L = Leaves
  import S = LeafStore

  /** The element maps of a resolver as far as the cases in `done` determine them. */
  ghost predicate RebuiltSoFar(r: C.Resolver, done: set<string>, caseOf: map<string, string>, prio: map<string, C.ElemPrio>) {
    && caseOf.Keys == prio.Keys
    && (forall el :: el in caseOf <==> exists c :: c in done && c in r.cases && el in r.cases[c])
    && (forall el | el in caseOf && el in r.caseOf && el in r.prio :: caseOf[el] == r.caseOf[el] && prio[el] == r.prio[el])
  }

  /** The elements of one case enter both element maps. */
  method CopyCase(r: C.Resolver, c: string, caseOf: map<string, string>, prio: map<string, C.ElemPrio>)
    returns (caseOf': map<string, string>, prio': map<string, C.ElemPrio>)
    requires c in r.cases && forall el | el in r.cases[c] :: el in r.prio
    ensures caseOf'.Keys == caseOf.Keys + r.cases[c] && prio'.Keys == prio.Keys + r.cases[c]
    ensures forall el | el in caseOf' :: caseOf'[el] == if el in r.cases[c] then c else caseOf[el]
    ensures forall el | el in prio' :: prio'[el] == if el in r.cases[c] then r.prio[el] else prio[el]
  {
    caseOf', prio' := caseOf, prio;
    var todo := r.cases[c];
    while todo != {}
      invariant todo <= r.cases[c]
      invariant caseOf'.Keys == caseOf.Keys + (r.cases[c] - todo) && prio'.Keys == prio.Keys + (r.cases[c] - todo)
      invariant forall el | el in caseOf' :: caseOf'[el] == if el in r.cases[c] - todo then c else caseOf[el]
      invariant forall el | el in prio' :: prio'[el] == if el in r.cases[c] - todo then r.prio[el] else prio[el]
      decreases todo
    {
      var el :| el in todo;
      caseOf', prio' := caseOf'[el := c], prio'[el := r.prio[el]];
      todo := todo - {el};
    }
  }

  /** Copies the cases and rebuilds the element maps from the copies, in any order: the same
      resolver, so that the same cases are best at both moments, whatever way ties are broken. */
  method CopyResolver(r: C.Resolver) returns (copy: C.Resolver)
    requires C.Valid(r)
    ensures copy == r
  {
    var caseOf, prio := RebuildMaps(r);
    RebuiltAll(r, caseOf, prio);
    copy := C.Resolver(r.cases, caseOf, prio);
  }

  method RebuildMaps(r: C.Resolver) returns (caseOf: map<string, string>, prio: map<string, C.ElemPrio>)
    requires C.Valid(r)
    ensures RebuiltSoFar(r, r.cases.Keys, caseOf, prio)
  {
    caseOf, prio := map[], map[];
    var todo := r.cases.Keys;
    while todo != {}
      invariant todo <= r.cases.Keys && RebuiltSoFar(r, r.cases.Keys - todo, caseOf, prio)
      decreases todo
    {
      var c :| c in todo;
      caseOf, prio := RebuildCase(r, r.cases.Keys - todo, c, caseOf, prio);
      assert r.cases.Keys - todo + {c} == r.cases.Keys - (todo - {c});
      todo := todo - {c};
    }
    assert r.cases.Keys - todo == r.cases.Keys;
  }

  method RebuildCase(r: C.Resolver, ghost done: set<string>, c: string, caseOf: map<string, string>, prio: map<string, C.ElemPrio>)
    returns (caseOf': map<string, string>, prio': map<string, C.ElemPrio>)
    requires C.Valid(r) && c in r.cases && RebuiltSoFar(r, done, caseOf, prio)
    ensures RebuiltSoFar(r, done + {c}, caseOf', prio')
  {
    caseOf', prio' := CopyCase(r, c, caseOf, prio);
    RebuiltStep(r, done, c, caseOf, prio, caseOf', prio');
  }

  lemma RebuiltStep(r: C.Resolver, done: set<string>, c: string, caseOf: map<string, string>, prio: map<string, C.ElemPrio>,
                    caseOf': map<string, string>, prio': map<string, C.ElemPrio>)
    requires C.Valid(r) && c in r.cases && RebuiltSoFar(r, done, caseOf, prio)
    requires caseOf'.Keys == caseOf.Keys + r.cases[c] && prio'.Keys == prio.Keys + r.cases[c]
    requires forall el | el in caseOf' :: caseOf'[el] == if el in r.cases[c] then c else caseOf[el]
    requires forall el | el in prio' :: if el in r.cases[c] then el in r.prio && prio'[el] == r.prio[el] else prio'[el] == prio[el]
    ensures RebuiltSoFar(r, done + {c}, caseOf', prio')
  {
    forall el ensures el in caseOf' <==> exists c' :: c' in done + {c} && c' in r.cases && el in r.cases[c'] {
      if el in caseOf {
        var c' :| c' in done && c' in r.cases && el in r.cases[c'];
        assert c' in done + {c};
      }
    }
  }

  lemma RebuiltAll(r: C.Resolver, caseOf: map<string, string>, prio: map<string, C.ElemPrio>)
    requires C.Valid(r) && RebuiltSoFar(r, r.cases.Keys, caseOf, prio)
    ensures caseOf == r.caseOf && prio == r.prio
  {
    forall el ensures el in caseOf <==> el in r.caseOf {
      if el in r.caseOf {
        assert r.caseOf[el] in r.cases.Keys;
      }
    }
  }

  /** Adding copies of the variants one by one gives the same list. */
  method CopyVariants(les: seq<L.LeafEntry>) returns (copy: seq<L.LeafEntry>)
    requires L.UniqueOwners(les)
    ensures copy == les
  {
    copy := [];
    for i := 0 to |les|
      invariant copy == les[..i]
    {
      assert L.IndexOf(les[..i], les[i].owner).None?;
      copy := S.Added(copy, les[i]);
      assert les[..i + 1] == les[..i] + [les[i]];
    }
  }

  ghost predicate Copyable(e: Entry) {
    && L.UniqueOwners(e.les)
    && (forall ch | ch in e.choices :: C.Valid(e.choices[ch]))
    && forall k | k in e.children :: Copyable(e.children[k])
  }

  method CopyResolvers(choices: map<string, C.Resolver>) returns (copy: map<string, C.Resolver>)
    requires forall ch | ch in choices :: C.Valid(choices[ch])
    ensures copy == choices
  {
    copy := map[];
    var todo := choices.Keys;
    while todo != {}
      invariant todo <= choices.Keys && copy.Keys == choices.Keys - todo
      invariant forall ch | ch in copy :: copy[ch] == choices[ch]
      decreases todo
    {
      var ch :| ch in todo;
      var r := CopyResolver(choices[ch]);
      copy := copy[ch := r];
      todo := todo - {ch};
    }
  }

  /** A copy is the same tree: the same entries, variants and resolvers. */
  method CopyTree(e: Entry) returns (copy: Entry)
    requires Copyable(e)
    ensures copy == e
    decreases e
  {
    var resolvers := CopyResolvers(e.choices);
    var children: map<string, Entry> := map[];
    var todo := e.children.Keys;
    while todo != {}
      invariant todo <= e.children.Keys && children.Keys == e.children.Keys - todo
      invariant forall k | k in children :: children[k] == e.children[k]
      decreases todo
    {
      var k :| k in todo;
      var child := CopyTree(e.children[k]);
      children := children[k := child];
      todo := todo - {k};
    }
    assert children == e.children;
    var les := CopyVariants(e.les);
    copy := Entry(e.schema, children, les, resolvers, e.nonRevertive);
  }
}
