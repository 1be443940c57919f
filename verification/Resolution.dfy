/** The end of the insertion phase: branch priorities are measured and the choices of every
    active entry resolved (pkg/tree/sharedEntryAttributes.go, FinishInsertionPhase;
    pkg/tree/ops/gethighestprecedencevalueofbranch.go). */
module Resolution {
  import opened Base
  import opened Tree
  import opened Lookups
  import C = Choices
  import L = Leaves

  /** The two filters that matter: variants that will be there, variants that were there. */
  predicate Counts(l: L.LeafEntry, m: C.Moment) {
    l.owner != DEFAULT && if m.Now? then !l.delete else !l.isNew
  }

  datatype Prio = Prio(v: int)

  ghost function LeafPrios(les: seq<L.LeafEntry>, n: nat, m: C.Moment): set<Prio>
    requires n <= |les|
  {
    set i | 0 <= i < n && Counts(les[i], m) :: Prio(les[i].priority)
  }

  /** All counted priorities at or below an entry. */
  ghost function PrioSet(e: Entry, m: C.Moment): set<Prio> {
    LeafPrios(e.les, |e.les|, m) + set k, v | k in e.children && v in PrioSet(e.children[k], m) :: v
  }

  ghost function ChildPrios(e: Entry, names: set<string>, m: C.Moment): set<Prio>
    requires names <= e.children.Keys
  {
    set k, v | k in names && v in PrioSet(e.children[k], m) :: v
  }

  /** Least element, capped by the largest int32. */
  ghost predicate IsLeast(s: set<Prio>, v: int) {
    && v <= MAX_PRIO
    && (forall x | x in s :: v <= x.v)
    && (v < MAX_PRIO ==> Prio(v) in s)
  }

  ghost function Least(s: set<Prio>): (v: int)
    ensures IsLeast(s, v)
  {
    if s == {} then MAX_PRIO
    else
      var x :| x in s;
      var rest := Least(s - {x});
      assert forall y | y in s :: y == x || y in s - {x};
      if x.v < rest then x.v else rest
  }

  lemma LeastOfUnion(a: set<Prio>, b: set<Prio>, v: int, w: int)
    requires IsLeast(a, v) && IsLeast(b, w)
    ensures IsLeast(a + b, if w < v then w else v)
  {
  }

  lemma LeastUnique(s: set<Prio>, v: int)
    requires IsLeast(s, v)
    ensures v == Least(s)
  {
  }

  lemma ChildPriosStep(e: Entry, names: set<string>, k: string, m: C.Moment)
    requires names + {k} <= e.children.Keys
    ensures ChildPrios(e, names + {k}, m) == ChildPrios(e, names, m) + PrioSet(e.children[k], m)
  {
  }

  lemma PrioSetSplit(e: Entry, m: C.Moment)
    ensures PrioSet(e, m) == ChildPrios(e, e.children.Keys, m) + LeafPrios(e.les, |e.les|, m)
  {
  }

  /** The least counted priority among one entry's variants. */
  method LeafPrecedence(les: seq<L.LeafEntry>, m: C.Moment) returns (v: int)
    ensures v == Least(LeafPrios(les, |les|, m))
  {
    v := MAX_PRIO;
    var i := 0;
    while i < |les|
      invariant 0 <= i <= |les|
      invariant IsLeast(LeafPrios(les, i, m), v)
    {
      assert LeafPrios(les, i + 1, m) ==
             LeafPrios(les, i, m) + if Counts(les[i], m) then {Prio(les[i].priority)} else {};
      if Counts(les[i], m) && les[i].priority < v {
        v := les[i].priority;
      }
      i := i + 1;
    }
    LeastUnique(LeafPrios(les, |les|, m), v);
  }

  /** The recursive minimum over a branch, children in any order, is the least counted priority. */
  method BranchPrecedence(e: Entry, m: C.Moment) returns (v: int)
    ensures v == Least(PrioSet(e, m))
    decreases e
  {
    v := MAX_PRIO;
    var todo := e.children.Keys;
    while todo != {}
      invariant todo <= e.children.Keys
      invariant IsLeast(ChildPrios(e, e.children.Keys - todo, m), v)
      decreases todo
    {
      var k :| k in todo;
      ghost var seen := e.children.Keys - todo;
      var c := BranchPrecedence(e.children[k], m);
      LeastOfUnion(ChildPrios(e, seen, m), PrioSet(e.children[k], m), v, c);
      if c < v {
        v := c;
      }
      todo := todo - {k};
      assert e.children.Keys - todo == seen + {k};
      ChildPriosStep(e, seen, k, m);
    }
    assert e.children.Keys - {} == e.children.Keys;
    var l := LeafPrecedence(e.les, m);
    LeastOfUnion(ChildPrios(e, e.children.Keys, m), LeafPrios(e.les, |e.les|, m), v, l);
    if l < v {
      v := l;
    }
    PrioSetSplit(e, m);
    LeastUnique(PrioSet(e, m), v);
  }

  /** The measured priority of a choice element: that of its branch, if it has one. */
  ghost function Measured(e: Entry, el: string): C.ElemPrio {
    if el in e.children
    then C.ElemPrio(Least(PrioSet(e.children[el], C.Now)), Least(PrioSet(e.children[el], C.Before)))
    else C.ElemPrio(MAX_PRIO, MAX_PRIO)
  }

  ghost function PopulatedResolver(e: Entry, r: C.Resolver): C.Resolver {
    r.(prio := map el | el in r.caseOf :: Measured(e, el))
  }

  ghost function Populate(e: Entry): Entry {
    if e.schema.None? then e
    else e.(choices := map ch | ch in e.choices :: PopulatedResolver(e, e.choices[ch]))
  }

  /** What the end of the insertion phase may make of an entry: its choices are measured, and the
      children that are then active with one best case for each choice are finished in turn. */
  ghost predicate MayFinish(e: Entry, f: Entry)
    decreases e, 1
  {
    && f == Populate(e).(children := f.children) && f.children.Keys == e.children.Keys
    && exists pick :: Picks(Populate(e), pick) && ChildrenFinish(e, f, ActiveWith(Populate(e), pick))
  }

  ghost predicate ChildrenFinish(e: Entry, f: Entry, names: set<string>)
    requires f.children.Keys == e.children.Keys
    decreases e, 0
  {
    forall k | k in e.children :: if k in names then MayFinish(e.children[k], f.children[k]) else f.children[k] == e.children[k]
  }

  ghost function FinishPick(e: Entry, f: Entry): (pick: Pick)
    requires MayFinish(e, f)
    ensures Picks(Populate(e), pick) && ChildrenFinish(e, f, ActiveWith(Populate(e), pick))
  {
    var pick :| Picks(Populate(e), pick) && ChildrenFinish(e, f, ActiveWith(Populate(e), pick));
    pick
  }

  /** Finishing measures and resolves; it changes no variant anywhere. */
  lemma {:induction false} FinishedSameLeaves(e: Entry, f: Entry, p: Path)
    requires MayFinish(e, f)
    ensures At(f, p).Some? <==> At(e, p).Some?
    ensures At(e, p).Some? ==> At(f, p).value.les == At(e, p).value.les
    decreases p
  {
    if p != [] && p[0] in e.children {
      var pick := FinishPick(e, f);
      if p[0] in ActiveWith(Populate(e), pick) {
        FinishedSameLeaves(e.children[p[0]], f.children[p[0]], p[1..]);
      }
    }
  }

  /** The choices will not be tied once measured. */
  ghost predicate Decisive(e: Entry) {
    && NodeNoTie(Populate(e))
    && forall k | k in Active(Populate(e)) :: Decisive(e.children[k])
  }

  lemma {:induction false} FinishedActive(e: Entry, f: Entry)
    requires MayFinish(e, f)
    ensures f.choices == Populate(e).choices && Active(f) == Active(Populate(e))
  {
  }

  /** Decisive numbers leave no ties, and one result. */
  lemma {:induction false} DecisiveFinishes(e: Entry, f: Entry, g: Entry)
    requires Decisive(e) && MayFinish(e, f) && MayFinish(e, g)
    ensures NoTies(f) && f == g
    decreases e
  {
    var a, b := FinishPick(e, f), FinishPick(e, g);
    OnePick(Populate(e), a);
    OnePick(Populate(e), b);
    FinishedActive(e, f);
    forall k | k in e.children ensures f.children[k] == g.children[k] && (k in Active(f) ==> NoTies(f.children[k])) {
      if k in Active(Populate(e)) {
        DecisiveFinishes(e.children[k], f.children[k], g.children[k]);
      }
    }
    assert f.children == g.children;
  }

  // ---------------------------------------------------------------- what resolution chooses

  ghost predicate ChoiceShape(e: Entry, ch: string) {
    e.schema.Some? && ch in e.choices && C.Valid(e.choices[ch])
  }

  lemma PopulatedValid(e: Entry, ch: string)
    requires ChoiceShape(e, ch)
    ensures C.Valid(Populate(e).choices[ch])
    ensures Populate(e).choices[ch] == PopulatedResolver(e, e.choices[ch])
  {
  }

  lemma MeasuredNow(e: Entry, ch: string, el: string)
    requires ChoiceShape(e, ch) && el in e.choices[ch].caseOf
    ensures C.PrioOf(Populate(e).choices[ch], el, C.Now) ==
            if el in e.children then Least(PrioSet(e.children[el], C.Now)) else MAX_PRIO
  {
  }
}
