/** Choice and case resolution, section 7.9 of RFC 7950
    (pkg/tree/api/choice_case_resolver.go). */
module Choices {
  import opened Base

  datatype ElemPrio = ElemPrio(woDeleted: int, woNew: int)

  /** The elements of every case, the case of every element, and the branch priorities. */
  datatype Resolver = Resolver(cases: map<string, set<string>>, caseOf: map<string, string>, prio: map<string, ElemPrio>)

  /** The three maps describe one partition of the elements into cases. */
  ghost predicate Valid(r: Resolver) {
    && r.prio.Keys == r.caseOf.Keys
    && (forall el | el in r.caseOf :: r.caseOf[el] in r.cases && el in r.cases[r.caseOf[el]])
    && (forall c, el | c in r.cases && el in r.cases[c] :: el in r.caseOf && r.caseOf[el] == c)
  }

  /** Resolution looks at the tree as it will be, or as it was before the new content. */
  datatype Moment = Now | Before

  function PrioOf(r: Resolver, el: string, m: Moment): int
  {
    if el !in r.prio then MAX_PRIO else if m.Now? then r.prio[el].woDeleted else r.prio[el].woNew
  }

  /** v is the least priority number over the elements, capped by the largest int32. */
  ghost predicate IsMinOver(r: Resolver, els: set<string>, m: Moment, v: int) {
    && v <= MAX_PRIO
    && (forall el | el in els :: v <= PrioOf(r, el, m))
    && (v < MAX_PRIO ==> exists el :: el in els && PrioOf(r, el, m) == v)
  }

  ghost function MinOver(r: Resolver, els: set<string>, m: Moment): (v: int)
    ensures IsMinOver(r, els, m, v)
  {
    if els == {} then MAX_PRIO
    else
      var el :| el in els;
      var rest := MinOver(r, els - {el}, m);
      assert forall x | x in els :: x == el || x in els - {el};
      if PrioOf(r, el, m) < rest then PrioOf(r, el, m) else rest
  }

  lemma MinUnique(r: Resolver, els: set<string>, m: Moment, v: int, w: int)
    requires IsMinOver(r, els, m, v) && IsMinOver(r, els, m, w)
    ensures v == w
  {
  }

  ghost function CaseMin(r: Resolver, c: string, m: Moment): int
    requires c in r.cases
  {
    MinOver(r, r.cases[c], m)
  }

  /** A result the case scan may return: a case of least priority number, or none if no case
      has a value at all. Ties are broken by map iteration order, so several may qualify. */
  ghost predicate IsBestCase(r: Resolver, m: Moment, best: Option<string>) {
    match best
    case None => forall c | c in r.cases :: CaseMin(r, c, m) >= MAX_PRIO
    case Some(b) =>
      && b in r.cases && CaseMin(r, b, m) < MAX_PRIO
      && forall c | c in r.cases :: CaseMin(r, b, m) <= CaseMin(r, c, m)
  }

  /** No two cases tie for the best place. */
  ghost predicate NoTie(r: Resolver) {
    forall m, b, b' | IsBestCase(r, m, Some(b)) && IsBestCase(r, m, Some(b')) :: b == b'
  }

  ghost predicate IsLeastCase(r: Resolver, cs: set<string>, m: Moment, b: string) {
    b in cs && cs <= r.cases.Keys && forall c | c in cs :: CaseMin(r, b, m) <= CaseMin(r, c, m)
  }

  lemma {:induction false} SomeBestCase(r: Resolver, cs: set<string>, m: Moment) returns (b: string)
    requires cs <= r.cases.Keys && cs != {}
    ensures IsLeastCase(r, cs, m, b)
  {
    var x :| x in cs;
    var rest := cs - {x};
    assert forall c | c in cs :: c == x || c in rest;
    b := x;
    if rest != {} {
      var y := SomeBestCase(r, rest, m);
      if CaseMin(r, y, m) <= CaseMin(r, x, m) {
        b := y;
      }
    }
  }

  lemma BestCaseExists(r: Resolver, m: Moment)
    ensures exists best :: IsBestCase(r, m, best)
  {
    if r.cases.Keys == {} {
      assert IsBestCase(r, m, None);
    } else {
      var b := SomeBestCase(r, r.cases.Keys, m);
      assert IsBestCase(r, m, if CaseMin(r, b, m) < MAX_PRIO then Some(b) else None);
    }
  }

  ghost function Best(r: Resolver, m: Moment): (best: Option<string>)
    ensures IsBestCase(r, m, best)
  {
    BestCaseExists(r, m);
    var best :| IsBestCase(r, m, best);
    best
  }

  /** Elements left out of the tree walk: those outside the best case. */
  ghost function SkipOf(r: Resolver, now: Option<string>): set<string> {
    set el | el in r.caseOf && Some(r.caseOf[el]) != now
  }

  /** Elements to remove from the device: the previous best case, if it lost its place. */
  ghost function DeletesOf(r: Resolver, now: Option<string>, before: Option<string>): set<string> {
    if before.Some? && before != now && before.value in r.cases then r.cases[before.value] else {}
  }

  ghost function Skip(choices: map<string, Resolver>): set<string> {
    set ch, el | ch in choices && el in SkipOf(choices[ch], Best(choices[ch], Now)) :: el
  }

  ghost function Deletes(choices: map<string, Resolver>): set<string> {
    set ch, el | ch in choices && el in DeletesOf(choices[ch], Best(choices[ch], Now), Best(choices[ch], Before)) :: el
  }

  /** What a changed choice deletes is outside the case it is deleted for. */
  lemma LosingCaseSkipped(r: Resolver, now: Option<string>, before: Option<string>, el: string)
    requires Valid(r) && el in DeletesOf(r, now, before)
    ensures el in SkipOf(r, now)
  {
  }

  lemma SingletonCase(r: Resolver, c: string, el: string, m: Moment)
    requires c in r.cases && r.cases[c] == {el} && PrioOf(r, el, m) <= MAX_PRIO
    ensures CaseMin(r, c, m) == PrioOf(r, el, m)
  {
    MinUnique(r, {el}, m, CaseMin(r, c, m), PrioOf(r, el, m));
  }

  function Tied(): Resolver {
    Resolver(map["A" := {"a"}, "B" := {"b"}], map["a" := "A", "b" := "B"],
             map["a" := ElemPrio(5, 5), "b" := ElemPrio(5, 9)])
  }

  lemma TiedMinima()
    ensures CaseMin(Tied(), "A", Now) == 5 && CaseMin(Tied(), "B", Now) == 5
    ensures CaseMin(Tied(), "A", Before) == 5 && CaseMin(Tied(), "B", Before) == 9
  {
    var r := Tied();
    assert "A"[0] != "B"[0] && "a"[0] != "b"[0];
    SingletonCase(r, "A", "a", Now);
    SingletonCase(r, "B", "b", Now);
    SingletonCase(r, "A", "a", Before);
    SingletonCase(r, "B", "b", Before);
  }

  lemma TiedBestCases()
    ensures IsBestCase(Tied(), Now, Some("A")) && IsBestCase(Tied(), Now, Some("B"))
    ensures IsBestCase(Tied(), Before, Some("A"))
  {
    assert Tied().cases.Keys == {"A", "B"};
    TiedMinima();
  }

  lemma TiedIsValid()
    ensures Valid(Tied())
  {
    assert "A"[0] != "B"[0] && "a"[0] != "b"[0];
  }

  /** A tie lets two walks of the same tree disagree: here one walk removes element "a" from
      the device while the other still treats "a" as active. */
  lemma TiesDisagree()
    ensures Valid(Tied()) && !NoTie(Tied())
    ensures exists now, now', before ::
              && IsBestCase(Tied(), Now, now) && IsBestCase(Tied(), Now, now') && IsBestCase(Tied(), Before, before)
              && DeletesOf(Tied(), now, before) * (Tied().caseOf.Keys - SkipOf(Tied(), now')) != {}
  {
    TiedIsValid();
    TiedBestCases();
    TiedSets();
    assert "A"[0] != "B"[0];
    var now, now', before: Option<string> := Some("B"), Some("A"), Some("A");
    assert IsBestCase(Tied(), Now, now) && IsBestCase(Tied(), Now, now') && IsBestCase(Tied(), Before, before);
    assert DeletesOf(Tied(), now, before) * (Tied().caseOf.Keys - SkipOf(Tied(), now')) != {};
  }

  lemma TiedSets()
    ensures DeletesOf(Tied(), Some("B"), Some("A")) * (Tied().caseOf.Keys - SkipOf(Tied(), Some("A"))) != {}
  {
    assert "A"[0] != "B"[0] && "a"[0] != "b"[0];
    assert "a" in DeletesOf(Tied(), Some("B"), Some("A"));
    assert "a" in Tied().caseOf.Keys - SkipOf(Tied(), Some("A"));
    assert "a" in DeletesOf(Tied(), Some("B"), Some("A")) * (Tied().caseOf.Keys - SkipOf(Tied(), Some("A")));
  }

  // ---------------------------------------------------------------- the scans

  /** Running minimum over the elements of one case, in any iteration order. */
  method CaseMinimum(r: Resolver, c: string, m: Moment) returns (v: int)
    requires c in r.cases
    ensures v == CaseMin(r, c, m)
  {
    v := MAX_PRIO;
    var todo := r.cases[c];
    while todo != {}
      invariant todo <= r.cases[c]
      invariant IsMinOver(r, r.cases[c] - todo, m, v)
      decreases todo
    {
      var el :| el in todo;
      ghost var seen := r.cases[c] - todo;
      if PrioOf(r, el, m) < v {
        v := PrioOf(r, el, m);
      }
      todo := todo - {el};
      assert r.cases[c] - todo == seen + {el};
    }
    assert r.cases[c] - {} == r.cases[c];
    MinUnique(r, r.cases[c], m, v, CaseMin(r, c, m));
  }

  // ---------------------------------------------------------------- both best cases in one pass

  /** What one pass may find: a best case at each moment, but never two different cases that are
      both best at both moments. */
  ghost predicate OnePass(r: Resolver, now: Option<string>, before: Option<string>) {
    && IsBestCase(r, Now, now) && IsBestCase(r, Before, before)
    && (now.Some? && before.Some? && now != before ==> !(IsBestCase(r, Now, before) && IsBestCase(r, Before, now)))
  }

  /** The case, if any, that a pass in this order finds first among the best. */
  ghost predicate FirstBest(r: Resolver, order: seq<string>, m: Moment, best: Option<string>) {
    && IsBestCase(r, m, best)
    && (best.Some? ==> exists i :: IsFirstBest(r, order, m, best.value, i))
  }

  ghost predicate IsFirstBest(r: Resolver, order: seq<string>, m: Moment, c: string, i: nat) {
    i < |order| && order[i] == c && forall j | 0 <= j < i :: !IsBestCase(r, m, Some(order[j]))
  }

  ghost predicate VisitsAll(r: Resolver, order: seq<string>) {
    forall c :: c in order <==> c in r.cases
  }

  ghost predicate FoundInOrder(r: Resolver, order: seq<string>, now: Option<string>, before: Option<string>) {
    VisitsAll(r, order) && FirstBest(r, order, Now, now) && FirstBest(r, order, Before, before)
  }

  /** One order visits the two cases so that each is found for its moment. */
  lemma {:induction false} HeadFound(r: Resolver, first: string, second: string, m: Moment, rest: seq<string>)
    requires !IsBestCase(r, m, Some(first))
    ensures IsFirstBest(r, [first, second] + rest, m, second, 1)
  {
  }

  ghost function Listed(cs: set<string>): (s: seq<string>)
    ensures forall c :: c in s <==> c in cs
  {
    if cs == {} then []
    else
      var c :| c in cs;
      assert cs == cs - {c} + {c};
      [c] + Listed(cs - {c})
  }

  /** An order in which a pass finds the pair. */
  ghost function OrderFor(r: Resolver, now: Option<string>, before: Option<string>): seq<string> {
    (if now.None? && before.None? then []
     else if now.None? then [before.value]
     else if before.None? || now == before then [now.value]
     else if IsBestCase(r, Now, before) then [now.value, before.value]
     else [before.value, now.value]) + Listed(r.cases.Keys)
  }

  lemma {:induction false} OrderVisitsAll(r: Resolver, now: Option<string>, before: Option<string>)
    requires OnePass(r, now, before)
    ensures VisitsAll(r, OrderFor(r, now, before))
  {
  }

  lemma {:induction false} OrderFinds(r: Resolver, now: Option<string>, before: Option<string>)
    requires OnePass(r, now, before)
    ensures FirstBest(r, OrderFor(r, now, before), Now, now) && FirstBest(r, OrderFor(r, now, before), Before, before)
  {
    var order, rest := OrderFor(r, now, before), Listed(r.cases.Keys);
    if now.Some? && before.Some? && now != before {
      if IsBestCase(r, Now, before) {
        HeadFound(r, now.value, before.value, Before, rest);
        assert IsFirstBest(r, order, Now, now.value, 0);
      } else {
        HeadFound(r, before.value, now.value, Now, rest);
        assert IsFirstBest(r, order, Before, before.value, 0);
      }
    } else {
      assert now.Some? ==> IsFirstBest(r, order, Now, now.value, 0);
      assert before.Some? ==> IsFirstBest(r, order, Before, before.value, 0);
    }
  }

  lemma {:induction false} FoundIsOnePass(r: Resolver, order: seq<string>, now: Option<string>, before: Option<string>)
    requires FoundInOrder(r, order, now, before)
    ensures OnePass(r, now, before)
  {
    if now.Some? && before.Some? && now != before {
      var i: nat :| IsFirstBest(r, order, Now, now.value, i);
      var j: nat :| IsFirstBest(r, order, Before, before.value, j);
      assert order[i] != order[j];
      if i < j {
        assert !IsBestCase(r, Before, Some(order[i]));
      } else {
        assert !IsBestCase(r, Now, Some(order[j]));
      }
    }
  }

  /** The pairs some order of the pass finds are exactly these. */
  lemma {:induction false} OnePassExactly(r: Resolver, now: Option<string>, before: Option<string>)
    ensures OnePass(r, now, before) <==> exists order :: FoundInOrder(r, order, now, before)
  {
    if OnePass(r, now, before) {
      OrderVisitsAll(r, now, before);
      OrderFinds(r, now, before);
      assert FoundInOrder(r, OrderFor(r, now, before), now, before);
    }
    if order :| FoundInOrder(r, order, now, before) {
      FoundIsOnePass(r, order, now, before);
    }
  }

  /** A pair one pass may find. */
  ghost function BestPair(r: Resolver): (pair: (Option<string>, Option<string>))
    ensures OnePass(r, pair.0, pair.1)
  {
    if c: string :| IsBestCase(r, Now, Some(c)) && IsBestCase(r, Before, Some(c)) then (Some(c), Some(c))
    else (Best(r, Now), Best(r, Before))
  }

  /** The first best of the cases seen, in the order they were seen. */
  ghost predicate FirstSoFar(r: Resolver, order: seq<string>, m: Moment, best: Option<string>, v: int) {
    && (forall c | c in order :: c in r.cases && v <= CaseMin(r, c, m))
    && match best
       case None => v == MAX_PRIO
       case Some(b) =>
         && v < MAX_PRIO
         && exists i: nat :: i < |order| && order[i] == b && CaseMin(r, b, m) == v
                             && forall j | 0 <= j < i :: v < CaseMin(r, order[j], m)
  }

  lemma {:induction false} OneMoreSeen(r: Resolver, order: seq<string>, m: Moment, best: Option<string>, v: int, c: string)
    requires FirstSoFar(r, order, m, best, v) && c in r.cases
    ensures var w := CaseMin(r, c, m);
            FirstSoFar(r, order + [c], m, if w < v then Some(c) else best, if w < v then w else v)
  {
    var w, order' := CaseMin(r, c, m), order + [c];
    assert IsMinOver(r, r.cases[c], m, w);
    if w < v {
      assert order'[|order|] == c;
    } else if best.Some? {
      var i: nat :| i < |order| && order[i] == best.value && CaseMin(r, best.value, m) == v && forall j | 0 <= j < i :: v < CaseMin(r, order[j], m);
      assert order'[i] == best.value && forall j | 0 <= j < i :: order'[j] == order[j];
    }
  }

  lemma {:induction false} AllSeen(r: Resolver, order: seq<string>, m: Moment, best: Option<string>, v: int)
    requires FirstSoFar(r, order, m, best, v) && VisitsAll(r, order)
    ensures FirstBest(r, order, m, best)
  {
    assert forall c | c in r.cases :: c in order;
    if best.Some? {
      var i: nat :| i < |order| && order[i] == best.value && CaseMin(r, best.value, m) == v && forall j | 0 <= j < i :: v < CaseMin(r, order[j], m);
      assert IsBestCase(r, m, best);
      forall j | 0 <= j < i ensures !IsBestCase(r, m, Some(order[j])) {
        assert order[j] in order;
      }
      assert IsFirstBest(r, order, m, best.value, i);
    }
  }

  /** Both best cases in one pass over the case map: each is the first best one of its moment in
      the order the pass takes. */
  method GetBestCases(r: Resolver) returns (now: Option<string>, before: Option<string>)
    ensures exists order :: FoundInOrder(r, order, now, before)
    ensures OnePass(r, now, before)
    ensures NoTie(r) ==> now == Best(r, Now) && before == Best(r, Before)
  {
    ghost var order;
    now, before, order := Scan(r);
    FoundIsOnePass(r, order, now, before);
  }

  method Scan(r: Resolver) returns (now: Option<string>, before: Option<string>, ghost order: seq<string>)
    ensures FoundInOrder(r, order, now, before)
  {
    now, before, order := None, None, [];
    var nowValue, beforeValue := MAX_PRIO, MAX_PRIO;
    var todo := r.cases.Keys;
    while todo != {}
      invariant todo <= r.cases.Keys && forall c :: c in order <==> c in r.cases && c !in todo
      invariant FirstSoFar(r, order, Now, now, nowValue) && FirstSoFar(r, order, Before, before, beforeValue)
      decreases todo
    {
      var c :| c in todo;
      OneMoreSeen(r, order, Now, now, nowValue, c);
      OneMoreSeen(r, order, Before, before, beforeValue, c);
      var cn := CaseMinimum(r, c, Now);
      if cn < nowValue {
        nowValue, now := cn, Some(c);
      }
      var cb := CaseMinimum(r, c, Before);
      if cb < beforeValue {
        beforeValue, before := cb, Some(c);
      }
      order := order + [c];
      todo := todo - {c};
    }
    AllSeen(r, order, Now, now, nowValue);
    AllSeen(r, order, Before, before, beforeValue);
  }
}
