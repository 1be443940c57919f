/** Inserting updates with their list keys (pkg/tree/ops/getorcreatechilds.go,
    AddUpdateRecursiveInternal; pkg/tree/ops/checkandcreatekeysasleafs.go). */
module Insertion {
  import opened Base
  import opened Tree
  import opened Paths
  import opened Growth
  import L = Leaves
  import S = LeafStore

  /** A list key's value, from the name at its key level. */
  function KeyValue(s: Schema, k: string, name: string): Value {
    Value(if s.Container? && k in s.children && s.children[k].Field? then s.children[k].typ else "", name)
  }

  /** The entry holds the content of a list element whose key levels are named `names`. */
  predicate IsElement(c: Ctx, names: seq<string>) {
    c.level > 0 && AtContent(c) && |names| == c.level
  }

  /** Names of the key levels above a child, reset at every schema level. */
  function Below(d: Ctx, names: seq<string>, name: string): seq<string> {
    if d.level > 0 then names + [name] else []
  }

  function LeafAdded(n: Entry, le: L.LeafEntry): Entry {
    n.(les := S.Added(n.les, le))
  }

  function Undeleted(n: Entry, owner: string): Entry {
    match L.IndexOf(n.les, owner)
    case None => n
    case Some(i) => n.(les := n.les[i := n.les[i].DropDelete()])
  }

  /** One key leaf: an existing variant of the owner is un-deleted, a missing one is added. */
  function KeyEnsured(e: Entry, k: string, v: Value, le: L.LeafEntry): Entry {
    if k in e.children && L.IndexOf(e.children[k].les, le.owner).Some?
    then e.(children := e.children[k := Undeleted(e.children[k], le.owner)])
    else e.(children := e.children[k := LeafAdded(
                          if k in e.children then e.children[k] else NewEntry(Ctx(Field(v.typ), 0)),
                          le.(value := v))])
  }

  /** All key leaves of a list element, taken from the last key backwards. */
  function KeysEnsured(e: Entry, keys: seq<string>, vals: seq<Value>, le: L.LeafEntry): Entry
    requires |keys| == |vals|
    decreases |keys|
  {
    if keys == [] then e
    else
      var n := |keys| - 1;
      KeysEnsured(KeyEnsured(e, keys[n], vals[n], le), keys[..n], vals[..n], le)
  }

  function KeyValues(c: Ctx, names: seq<string>): seq<Value>
    requires IsElement(c, names)
  {
    seq(c.level, i requires 0 <= i < c.level => KeyValue(c.schema, KeyNames(c)[i], names[i]))
  }

  function Prepared(e: Entry, c: Ctx, names: seq<string>, le: L.LeafEntry): Entry {
    if IsElement(c, names) then KeysEnsured(e, KeyNames(c), KeyValues(c, names), le) else e
  }

  /** The loop over the keys, from the last key level upwards. */
  method EnsureKeys(e: Entry, keys: seq<string>, vals: seq<Value>, le: L.LeafEntry) returns (r: Entry)
    requires |keys| == |vals|
    ensures r == KeysEnsured(e, keys, vals, le)
  {
    r := e;
    var n := |keys|;
    assert keys[..n] == keys && vals[..n] == vals;
    while n > 0
      invariant 0 <= n <= |keys|
      invariant KeysEnsured(r, keys[..n], vals[..n], le) == KeysEnsured(e, keys, vals, le)
    {
      n := n - 1;
      assert keys[..n + 1][..n] == keys[..n] && vals[..n + 1][..n] == vals[..n];
      r := KeyEnsured(r, keys[n], vals[n], le);
    }
  }

  /** Adds an update at p, with the key leaves of every list element it passes. */
  function AddUpdate(e: Entry, c: Ctx, names: seq<string>, p: Path, le: L.LeafEntry): Option<Entry>
    decreases p
  {
    var e1 := Prepared(e, c, names, le);
    if p == [] then Some(LeafAdded(e1, le))
    else match ChildCtx(c, p[0])
      case None => None
      case Some(d) =>
        match AddUpdate(ChildOrNew(e1, d, p[0]), d, Below(d, names, p[0]), p[1..], le)
        case None => None
        case Some(n) => Some(e1.(children := e1.children[p[0] := n]))
  }

  // ---------------------------------------------------------------- key leaves, specified

  function KeyIndex(keys: seq<string>, k: string): (r: Option<nat>)
    ensures r.Some? ==> r.value < |keys| && keys[r.value] == k
    ensures r.None? ==> k !in keys
  {
    if keys == [] then None
    else if keys[|keys| - 1] == k then Some(|keys| - 1)
    else KeyIndex(keys[..|keys| - 1], k)
  }

  /** The value of the key leaf k of a list element. */
  function ElementKey(c: Ctx, names: seq<string>, k: string): Option<Value> {
    if IsElement(c, names) && KeyIndex(KeyNames(c), k).Some?
    then Some(KeyValue(c.schema, k, names[KeyIndex(KeyNames(c), k).value]))
    else None
  }

  /** q is a key leaf of a list element on the way to p: its value. */
  function KeyLeafAt(c: Ctx, names: seq<string>, p: Path, q: Path): Option<Value>
    decreases p
  {
    if |q| == 1 && ElementKey(c, names, q[0]).Some? then ElementKey(c, names, q[0])
    else if p != [] && q != [] && p[0] == q[0] && ChildCtx(c, p[0]).Some? then
      var d := ChildCtx(c, p[0]).value;
      KeyLeafAt(d, Below(d, names, p[0]), p[1..], q[1..])
    else None
  }

  /** A key leaf's value depends on its own path only. */
  lemma {:induction false} KeyLeafSelf(c: Ctx, names: seq<string>, p: Path, q: Path)
    requires KeyLeafAt(c, names, p, q).Some?
    ensures KeyLeafAt(c, names, q, q) == KeyLeafAt(c, names, p, q)
    decreases p
  {
    if !(|q| == 1 && ElementKey(c, names, q[0]).Some?) {
      var d := ChildCtx(c, p[0]).value;
      KeyLeafSelf(d, Below(d, names, p[0]), p[1..], q[1..]);
    }
  }

  /** The key leaves on the way to a key leaf of p are key leaves of p. */
  lemma {:induction false} KeyLeafTrans(c: Ctx, names: seq<string>, p: Path, q: Path, r: Path)
    requires KeyLeafAt(c, names, p, q).Some? && KeyLeafAt(c, names, q, r).Some?
    ensures KeyLeafAt(c, names, p, r) == KeyLeafAt(c, names, q, r)
    decreases p
  {
    if |q| == 1 && ElementKey(c, names, q[0]).Some? {
    } else if !(|r| == 1 && ElementKey(c, names, r[0]).Some?) {
      var d := ChildCtx(c, p[0]).value;
      KeyLeafTrans(d, Below(d, names, p[0]), p[1..], q[1..], r[1..]);
    }
  }

  /** Whatever the owner holds, live or deleted, in a key leaf agrees with the key level. */
  ghost predicate Matching(e: Entry, c: Ctx, names: seq<string>, owner: string) {
    forall q | VariantAt(e, q, owner).Some? && KeyLeafAt(c, names, q, q).Some? ::
      VariantAt(e, q, owner).value.value == KeyLeafAt(c, names, q, q).value
  }

  lemma MatchingChild(e: Entry, c: Ctx, names: seq<string>, owner: string, k: string)
    requires Matching(e, c, names, owner) && k in e.children && ChildCtx(c, k).Some?
    ensures var d := ChildCtx(c, k).value; Matching(e.children[k], d, Below(d, names, k), owner)
  {
    var d := ChildCtx(c, k).value;
    forall q | VariantAt(e.children[k], q, owner).Some? && KeyLeafAt(d, Below(d, names, k), q, q).Some?
      ensures VariantAt(e.children[k], q, owner).value.value == KeyLeafAt(d, Below(d, names, k), q, q).value
    {
      var kq := [k] + q;
      assert kq[1..] == q;
      assert VariantAt(e, kq, owner) == VariantAt(e.children[k], q, owner);
      assert KeyLeafAt(c, names, kq, kq) == KeyLeafAt(d, Below(d, names, k), q, q);
    }
  }

  // ---------------------------------------------------------------- what ensuring keys does

  lemma UndeletedPerOwner(n: Entry, gone: string, owner: string)
    requires L.UniqueOwners(n.les)
    ensures var n' := Undeleted(n, gone);
            && L.UniqueOwners(n'.les)
            && L.ByOwner(n'.les, owner) ==
               if owner == gone && L.ByOwner(n.les, owner).Some?
               then Some(L.ByOwner(n.les, owner).value.DropDelete()) else L.ByOwner(n.les, owner)
  {
    var n' := Undeleted(n, gone);
    if L.IndexOf(n.les, gone).Some? {
      var i := L.IndexOf(n.les, gone).value;
      S.ByOwnerUnique(n'.les, gone, i);
      if owner != gone {
        forall l: L.LeafEntry | l.owner == owner ensures l in n.les <==> l in n'.les {
          if l in n.les {
            var j :| 0 <= j < |n.les| && n.les[j] == l;
            assert n'.les[j] == l;
          }
        }
        S.ByOwnerAgree(n.les, n'.les, owner);
      }
    }
  }

  /** Replacing one child changes observations below that child only. */
  lemma ChildReplaced(e: Entry, k: string, n: Entry, q: Path, owner: string)
    ensures var e' := e.(children := e.children[k := n]);
            VariantAt(e', q, owner) ==
            if q != [] && q[0] == k then VariantAt(n, q[1..], owner) else VariantAt(e, q, owner)
  {
  }

  /** One key leaf ensured: live with the key's value, everything else as before. */
  lemma KeyEnsuredObserved(e: Entry, k: string, v: Value, le: L.LeafEntry, q: Path, owner: string)
    requires OwnersUnique(e) && le.owner != DEFAULT && owner != DEFAULT && !le.delete
    requires VariantAt(e, [k], le.owner).Some? ==> VariantAt(e, [k], le.owner).value.value == v
    ensures var e' := KeyEnsured(e, k, v, le);
            && OwnersUnique(e')
            && (q != [k] || owner != le.owner ==> VariantAt(e', q, owner) == VariantAt(e, q, owner))
            && LiveAt(e', [k], le.owner) == Some(v)
  {
    var f := Ctx(Field(v.typ), 0);
    var child := if k in e.children then e.children[k] else NewEntry(f);
    var n := KeyLeafEnsured(child, v, le);
    NewEntryEmpty(f, [], owner);
    NewEntryEmpty(f, [], le.owner);
    NewEntryEmpty(f, if q == [] then [] else q[1..], owner);
    assert [k][1..] == [];
    assert k in e.children ==> VariantAt(e, [k], le.owner) == VariantAt(child, [], le.owner);
    KeyLeafObserved(child, v, le, owner);
    assert KeyEnsured(e, k, v, le) == e.(children := e.children[k := n]);
    ChildReplaced(e, k, n, q, owner);
    ChildReplaced(e, k, n, [k], le.owner);
    if q != [] && q[0] == k {
      assert q == [k] <==> q[1..] == [];
      SameBelow(child, n, q[1..], owner);
    }
  }

  /** The key leaf itself. */
  function KeyLeafEnsured(child: Entry, v: Value, le: L.LeafEntry): Entry {
    if L.IndexOf(child.les, le.owner).Some? then Undeleted(child, le.owner) else LeafAdded(child, le.(value := v))
  }

  lemma KeyLeafObserved(child: Entry, v: Value, le: L.LeafEntry, owner: string)
    requires OwnersUnique(child) && !le.delete
    requires L.ByOwner(child.les, le.owner).Some? ==> L.ByOwner(child.les, le.owner).value.value == v
    ensures var n := KeyLeafEnsured(child, v, le);
            && n.children == child.children && OwnersUnique(n) && LiveAt(n, [], le.owner) == Some(v)
            && (owner != le.owner ==> L.ByOwner(n.les, owner) == L.ByOwner(child.les, owner))
  {
    UndeletedPerOwner(child, le.owner, owner);
    UndeletedPerOwner(child, le.owner, le.owner);
    S.AddedPerOwner(child.les, le.(value := v), owner);
    S.AddedPerOwner(child.les, le.(value := v), le.owner);
  }

  lemma SameBelow(a: Entry, b: Entry, q: Path, owner: string)
    requires a.children == b.children
    ensures q != [] ==> VariantAt(a, q, owner) == VariantAt(b, q, owner)
  {
  }

  lemma {:induction false} KeyIndexOf(keys: seq<string>, i: nat)
    requires Ascending(keys) && i < |keys|
    ensures KeyIndex(keys, keys[i]) == Some(i)
  {
    var last := |keys| - 1;
    if i < last {
      LessTotal(keys[i], keys[last]);
      KeyIndexOf(keys[..last], i);
    }
  }

  predicate Distinct(keys: seq<string>) {
    forall i, j | 0 <= i < j < |keys| :: keys[i] != keys[j]
  }

  lemma KeyNamesDistinct(c: Ctx)
    ensures Distinct(KeyNames(c))
  {
    KeyNamesAscend(c);
    forall i, j | 0 <= i < j < |KeyNames(c)| ensures KeyNames(c)[i] != KeyNames(c)[j] {
      LessTotal(KeyNames(c)[i], KeyNames(c)[j]);
    }
  }

  /** The key leaves hold nothing of the owner that disagrees with the key levels. */
  ghost predicate KeysAgree(e: Entry, keys: seq<string>, vals: seq<Value>, owner: string)
    requires |keys| == |vals|
  {
    forall i | 0 <= i < |keys| && VariantAt(e, [keys[i]], owner).Some? :: VariantAt(e, [keys[i]], owner).value.value == vals[i]
  }

  lemma AgreeAfterLast(e: Entry, keys: seq<string>, vals: seq<Value>, le: L.LeafEntry)
    requires OwnersUnique(e) && le.owner != DEFAULT && !le.delete
    requires keys != [] && |keys| == |vals| && Distinct(keys) && KeysAgree(e, keys, vals, le.owner)
    ensures var n := |keys| - 1;
            KeysAgree(KeyEnsured(e, keys[n], vals[n], le), keys[..n], vals[..n], le.owner)
  {
    var n := |keys| - 1;
    forall i | 0 <= i < n
      ensures VariantAt(KeyEnsured(e, keys[n], vals[n], le), [keys[i]], le.owner) == VariantAt(e, [keys[i]], le.owner)
    {
      assert [keys[i]][0] != [keys[n]][0];
      KeyEnsuredObserved(e, keys[n], vals[n], le, [keys[i]], le.owner);
    }
  }

  lemma {:induction false} OthersUntouched(e: Entry, keys: seq<string>, vals: seq<Value>, le: L.LeafEntry, q: Path, owner: string)
    requires OwnersUnique(e) && le.owner != DEFAULT && owner != DEFAULT && !le.delete
    requires |keys| == |vals| && Distinct(keys) && KeysAgree(e, keys, vals, le.owner)
    ensures OwnersUnique(KeysEnsured(e, keys, vals, le))
    ensures (|q| == 1 ==> q[0] !in keys) || owner != le.owner ==>
              VariantAt(KeysEnsured(e, keys, vals, le), q, owner) == VariantAt(e, q, owner)
    decreases |keys|
  {
    if keys != [] {
      var n := |keys| - 1;
      var e1 := KeyEnsured(e, keys[n], vals[n], le);
      KeyEnsuredObserved(e, keys[n], vals[n], le, q, owner);
      AgreeAfterLast(e, keys, vals, le);
      assert keys[n] in keys && forall k | k in keys[..n] :: k in keys;
      OthersUntouched(e1, keys[..n], vals[..n], le, q, owner);
    }
  }

  lemma {:induction false} LastKeyLive(e: Entry, keys: seq<string>, vals: seq<Value>, le: L.LeafEntry)
    requires OwnersUnique(e) && le.owner != DEFAULT && !le.delete
    requires keys != [] && |keys| == |vals| && Distinct(keys) && KeysAgree(e, keys, vals, le.owner)
    ensures LiveAt(KeysEnsured(e, keys, vals, le), [keys[|keys| - 1]], le.owner) == Some(vals[|keys| - 1])
  {
    var n := |keys| - 1;
    var k := keys[n];
    assert VariantAt(e, [k], le.owner).Some? ==> VariantAt(e, [k], le.owner).value.value == vals[n];
    KeyEnsuredObserved(e, k, vals[n], le, [k], le.owner);
    AgreeAfterLast(e, keys, vals, le);
    assert k !in keys[..n];
    OthersUntouched(KeyEnsured(e, k, vals[n], le), keys[..n], vals[..n], le, [k], le.owner);
  }

  lemma {:induction false} KeysLive(e: Entry, keys: seq<string>, vals: seq<Value>, le: L.LeafEntry, i: nat)
    requires OwnersUnique(e) && le.owner != DEFAULT && !le.delete
    requires |keys| == |vals| && Distinct(keys) && KeysAgree(e, keys, vals, le.owner) && i < |keys|
    ensures LiveAt(KeysEnsured(e, keys, vals, le), [keys[i]], le.owner) == Some(vals[i])
    decreases |keys|
  {
    var n := |keys| - 1;
    if i == n {
      LastKeyLive(e, keys, vals, le);
    } else {
      AgreeAfterLast(e, keys, vals, le);
      KeyEnsuredUnique(e, keys[n], vals[n], le);
      KeysLive(KeyEnsured(e, keys[n], vals[n], le), keys[..n], vals[..n], le, i);
    }
  }

  lemma {:induction false} KeyEnsuredUnique(e: Entry, k: string, v: Value, le: L.LeafEntry)
    requires OwnersUnique(e)
    ensures OwnersUnique(KeyEnsured(e, k, v, le))
  {
    var f := Ctx(Field(v.typ), 0);
    NewEntryEmpty(f, [], RUNNING);
    var child := if k in e.children then e.children[k] else NewEntry(f);
    KeyLeafUnique(child, v, le);
    assert KeyEnsured(e, k, v, le) == e.(children := e.children[k := KeyLeafEnsured(child, v, le)]);
  }

  lemma {:induction false} KeyLeafUnique(child: Entry, v: Value, le: L.LeafEntry)
    requires OwnersUnique(child)
    ensures OwnersUnique(KeyLeafEnsured(child, v, le))
  {
    S.AddedPerOwner(child.les, le.(value := v), le.owner);
    UndeletedPerOwner(child, le.owner, le.owner);
    assert KeyLeafEnsured(child, v, le).children == child.children;
  }

  /** Every key leaf of a list element is in the key-leaf specification and conversely. */
  lemma ElementKeys(c: Ctx, names: seq<string>, q: Path)
    requires IsElement(c, names)
    ensures (|q| == 1 && ElementKey(c, names, q[0]).Some?) <==> exists i | 0 <= i < c.level :: q == [KeyNames(c)[i]]
    ensures forall i | 0 <= i < c.level && q == [KeyNames(c)[i]] ::
              ElementKey(c, names, q[0]) == Some(KeyValue(c.schema, KeyNames(c)[i], names[i]))
  {
    KeyNamesAscend(c);
    forall i | 0 <= i < c.level && q == [KeyNames(c)[i]]
      ensures ElementKey(c, names, q[0]) == Some(KeyValue(c.schema, KeyNames(c)[i], names[i]))
    {
      KeyIndexOf(KeyNames(c), i);
    }
    if |q| == 1 && ElementKey(c, names, q[0]).Some? {
      var i := KeyIndex(KeyNames(c), q[0]).value;
      assert q == [KeyNames(c)[i]];
    }
  }

  lemma AgreeFromMatching(e: Entry, c: Ctx, names: seq<string>, owner: string)
    requires IsElement(c, names) && Matching(e, c, names, owner)
    ensures KeysAgree(e, KeyNames(c), KeyValues(c, names), owner)
  {
    forall i | 0 <= i < c.level && VariantAt(e, [KeyNames(c)[i]], owner).Some?
      ensures VariantAt(e, [KeyNames(c)[i]], owner).value.value == KeyValue(c.schema, KeyNames(c)[i], names[i])
    {
      ElementKeys(c, names, [KeyNames(c)[i]]);
    }
  }

  /** Before descending: the key leaves of a list element are live, all else is as it was. */
  lemma PreparedObserved(e: Entry, c: Ctx, names: seq<string>, le: L.LeafEntry, q: Path, owner: string)
    requires OwnersUnique(e) && le.owner != DEFAULT && owner != DEFAULT && !le.delete && Matching(e, c, names, le.owner)
    ensures OwnersUnique(Prepared(e, c, names, le))
    ensures owner != le.owner ==> VariantAt(Prepared(e, c, names, le), q, owner) == VariantAt(e, q, owner)
    ensures if |q| == 1 && ElementKey(c, names, q[0]).Some?
            then LiveAt(Prepared(e, c, names, le), q, le.owner) == ElementKey(c, names, q[0])
            else VariantAt(Prepared(e, c, names, le), q, le.owner) == VariantAt(e, q, le.owner)
  {
    if IsElement(c, names) {
      var keys, vals := KeyNames(c), KeyValues(c, names);
      AgreeFromMatching(e, c, names, le.owner);
      KeyNamesDistinct(c);
      OthersUntouched(e, keys, vals, le, q, owner);
      OthersUntouched(e, keys, vals, le, q, le.owner);
      ElementKeys(c, names, q);
      if |q| == 1 && q[0] in keys {
        var i :| 0 <= i < |keys| && keys[i] == q[0];
        assert q == [keys[i]];
        KeysLive(e, keys, vals, le, i);
      }
    }
  }

  /** What an owner's content becomes when an update is added at p. */
  function Overlaid(c: Ctx, names: seq<string>, p: Path, v: Value, q: Path, before: Option<Value>): Option<Value> {
    if q == p then Some(v)
    else if KeyLeafAt(c, names, p, q).Some? then KeyLeafAt(c, names, p, q)
    else before
  }

  /** An update at a key leaf must carry the key's value. */
  predicate KeyConsistent(c: Ctx, names: seq<string>, p: Path, v: Value) {
    KeyLeafAt(c, names, p, p).Some? ==> KeyLeafAt(c, names, p, p) == Some(v)
  }

  lemma MatchingBelow(e: Entry, c: Ctx, names: seq<string>, owner: string, d: Ctx, k: string)
    requires owner != DEFAULT && Matching(e, c, names, owner) && ChildCtx(c, k) == Some(d)
    ensures Matching(ChildOrNew(e, d, k), d, Below(d, names, k), owner)
  {
    if k in e.children {
      MatchingChild(e, c, names, owner, k);
    } else {
      forall q ensures VariantAt(NewEntry(d), q, owner).None? {
        NewEntryEmpty(d, q, owner);
      }
    }
  }

  lemma MatchingPrepared(e: Entry, c: Ctx, names: seq<string>, le: L.LeafEntry)
    requires OwnersUnique(e) && le.owner != DEFAULT && !le.delete && Matching(e, c, names, le.owner)
    ensures Matching(Prepared(e, c, names, le), c, names, le.owner)
  {
    var e1 := Prepared(e, c, names, le);
    forall q | VariantAt(e1, q, le.owner).Some? && KeyLeafAt(c, names, q, q).Some?
      ensures VariantAt(e1, q, le.owner).value.value == KeyLeafAt(c, names, q, q).value
    {
      PreparedObserved(e, c, names, le, q, le.owner);
    }
  }

  /** Adding an update leaves every other owner's content alone. */
  lemma {:induction false} AddUpdateOthers(e: Entry, c: Ctx, names: seq<string>, p: Path, le: L.LeafEntry, q: Path, owner: string)
    requires OwnersUnique(e) && le.owner != DEFAULT && owner != DEFAULT && !le.delete && Matching(e, c, names, le.owner)
    requires AddUpdate(e, c, names, p, le).Some?
    ensures OwnersUnique(AddUpdate(e, c, names, p, le).value)
    ensures owner != le.owner ==> VariantAt(AddUpdate(e, c, names, p, le).value, q, owner) == VariantAt(e, q, owner)
    decreases p
  {
    var e1 := Prepared(e, c, names, le);
    PreparedObserved(e, c, names, le, q, owner);
    if p == [] {
      S.AddedPerOwner(e1.les, le, owner);
    } else {
      var d := ChildCtx(c, p[0]).value;
      var child, names' := ChildOrNew(e1, d, p[0]), Below(d, names, p[0]);
      MatchingPrepared(e, c, names, le);
      MatchingBelow(e1, c, names, le.owner, d, p[0]);
      NewEntryEmpty(d, [], RUNNING);
      var q' := if q != [] then q[1..] else [];
      NewEntryEmpty(d, q', owner);
      AddUpdateOthers(child, d, names', p[1..], le, q', owner);
      ChildReplaced(e1, p[0], AddUpdate(child, d, names', p[1..], le).value, q, owner);
    }
  }

  lemma {:induction false} AddedHere(e: Entry, c: Ctx, names: seq<string>, le: L.LeafEntry, q: Path)
    requires OwnersUnique(e) && le.owner != DEFAULT && !le.delete && Matching(e, c, names, le.owner)
    ensures LiveAt(AddUpdate(e, c, names, [], le).value, q, le.owner) ==
            Overlaid(c, names, [], le.value, q, LiveAt(e, q, le.owner))
  {
    PreparedObserved(e, c, names, le, q, le.owner);
    S.AddedPerOwner(Prepared(e, c, names, le).les, le, le.owner);
  }

  lemma {:induction false} AddedAside(e: Entry, c: Ctx, names: seq<string>, p: Path, le: L.LeafEntry, q: Path)
    requires OwnersUnique(e) && le.owner != DEFAULT && !le.delete && Matching(e, c, names, le.owner)
    requires p != [] && AddUpdate(e, c, names, p, le).Some? && (q == [] || q[0] != p[0])
    ensures LiveAt(AddUpdate(e, c, names, p, le).value, q, le.owner) ==
            Overlaid(c, names, p, le.value, q, LiveAt(e, q, le.owner))
  {
    PreparedObserved(e, c, names, le, q, le.owner);
    var e1, d := Prepared(e, c, names, le), ChildCtx(c, p[0]).value;
    ChildReplaced(e1, p[0], AddUpdate(ChildOrNew(e1, d, p[0]), d, Below(d, names, p[0]), p[1..], le).value, q, le.owner);
  }

  lemma {:induction false} ChildOfPrepared(e: Entry, c: Ctx, names: seq<string>, le: L.LeafEntry, d: Ctx, q: Path)
    requires OwnersUnique(e) && le.owner != DEFAULT && !le.delete && Matching(e, c, names, le.owner)
    requires q != [] && ChildCtx(c, q[0]) == Some(d)
    ensures var child := ChildOrNew(Prepared(e, c, names, le), d, q[0]);
            && OwnersUnique(child) && Matching(child, d, Below(d, names, q[0]), le.owner)
            && LiveAt(child, q[1..], le.owner) ==
               if |q| == 1 && ElementKey(c, names, q[0]).Some? then ElementKey(c, names, q[0]) else LiveAt(e, q, le.owner)
  {
    var e1 := Prepared(e, c, names, le);
    PreparedObserved(e, c, names, le, q, le.owner);
    MatchingPrepared(e, c, names, le);
    MatchingBelow(e1, c, names, le.owner, d, q[0]);
    NewEntryEmpty(d, q[1..], le.owner);
    assert VariantAt(ChildOrNew(e1, d, q[0]), q[1..], le.owner) == VariantAt(e1, q, le.owner);
  }

  /** Adding an update sets its path and the key leaves on the way, and nothing else. */
  lemma {:induction false} AddUpdateObserved(e: Entry, c: Ctx, names: seq<string>, p: Path, le: L.LeafEntry, q: Path)
    requires OwnersUnique(e) && le.owner != DEFAULT && !le.delete && Matching(e, c, names, le.owner)
    requires AddUpdate(e, c, names, p, le).Some?
    ensures LiveAt(AddUpdate(e, c, names, p, le).value, q, le.owner) ==
            Overlaid(c, names, p, le.value, q, LiveAt(e, q, le.owner))
    decreases p
  {
    if p == [] {
      AddedHere(e, c, names, le, q);
    } else if q == [] || q[0] != p[0] {
      AddedAside(e, c, names, p, le, q);
    } else {
      var e1, d := Prepared(e, c, names, le), ChildCtx(c, p[0]).value;
      var child, names' := ChildOrNew(e1, d, p[0]), Below(d, names, p[0]);
      ChildOfPrepared(e, c, names, le, d, q);
      AddUpdateObserved(child, d, names', p[1..], le, q[1..]);
      ChildReplaced(e1, p[0], AddUpdate(child, d, names', p[1..], le).value, q, le.owner);
      DescendOverlaid(c, names, p, le.value, q, LiveAt(e, q, le.owner), LiveAt(child, q[1..], le.owner));
    }
  }

  /** The overlay at a position, seen from the child on the way. */
  lemma DescendOverlaid(c: Ctx, names: seq<string>, p: Path, v: Value, q: Path, before: Option<Value>, prepared: Option<Value>)
    requires p != [] && q != [] && p[0] == q[0] && ChildCtx(c, p[0]).Some?
    requires prepared == if |q| == 1 && ElementKey(c, names, q[0]).Some? then ElementKey(c, names, q[0]) else before
    ensures var d := ChildCtx(c, p[0]).value;
            Overlaid(d, Below(d, names, p[0]), p[1..], v, q[1..], prepared) == Overlaid(c, names, p, v, q, before)
  {
    assert q == p <==> q[1..] == p[1..];
    if |q| == 1 && ElementKey(c, names, q[0]).Some? {
      assert q[1..] == [];
    }
  }

  lemma {:induction false} AddUpdateKeeps(e: Entry, c: Ctx, names: seq<string>, p: Path, le: L.LeafEntry, q: Path)
    requires OwnersUnique(e) && le.owner != DEFAULT && !le.delete && Matching(e, c, names, le.owner)
    requires AddUpdate(e, c, names, p, le).Some? && q != p && KeyLeafAt(c, names, p, q).None?
    ensures VariantAt(AddUpdate(e, c, names, p, le).value, q, le.owner) == VariantAt(e, q, le.owner)
    decreases p
  {
    PreparedObserved(e, c, names, le, q, le.owner);
    if p != [] {
      var e1, d := Prepared(e, c, names, le), ChildCtx(c, p[0]).value;
      var child, names' := ChildOrNew(e1, d, p[0]), Below(d, names, p[0]);
      ChildReplaced(e1, p[0], AddUpdate(child, d, names', p[1..], le).value, q, le.owner);
      if q != [] && q[0] == p[0] {
        ChildOfPrepared(e, c, names, le, d, q);
        assert q == [q[0]] + q[1..] && p == [p[0]] + p[1..];
        AddUpdateKeeps(child, d, names', p[1..], le, q[1..]);
        NewEntryEmpty(d, q[1..], le.owner);
      }
    }
  }

  lemma AddUpdateMatching(e: Entry, c: Ctx, names: seq<string>, p: Path, le: L.LeafEntry)
    requires OwnersUnique(e) && le.owner != DEFAULT && !le.delete && Matching(e, c, names, le.owner)
    requires AddUpdate(e, c, names, p, le).Some? && KeyConsistent(c, names, p, le.value)
    ensures Matching(AddUpdate(e, c, names, p, le).value, c, names, le.owner)
  {
    var e' := AddUpdate(e, c, names, p, le).value;
    forall q | VariantAt(e', q, le.owner).Some? && KeyLeafAt(c, names, q, q).Some?
      ensures VariantAt(e', q, le.owner).value.value == KeyLeafAt(c, names, q, q).value
    {
      if q != p && KeyLeafAt(c, names, p, q).None? {
        AddUpdateKeeps(e, c, names, p, le, q);
      } else {
        AddUpdateObserved(e, c, names, p, le, q);
        if q != p {
          KeyLeafSelf(c, names, p, q);
        }
      }
    }
  }

  // ---------------------------------------------------------------- key-leaf closure

  /** Whoever holds something live below a list element holds its key leaves live, each with the
      value of its key level (list keys: section 7.8.2 of RFC 7950). */
  ghost predicate KeyClosed(e: Entry, c: Ctx, owner: string) {
    forall p, q | LiveAt(e, p, owner).Some? && KeyLeafAt(c, [], p, q).Some? :: LiveAt(e, q, owner) == KeyLeafAt(c, [], p, q)
  }

  lemma ClosureStep(e: Entry, c: Ctx, p: Path, le: L.LeafEntry, p1: Path, q: Path)
    requires OwnersUnique(e) && le.owner != DEFAULT && !le.delete && Matching(e, c, [], le.owner)
    requires AddUpdate(e, c, [], p, le).Some? && KeyConsistent(c, [], p, le.value) && KeyClosed(e, c, le.owner)
    requires LiveAt(AddUpdate(e, c, [], p, le).value, p1, le.owner).Some? && KeyLeafAt(c, [], p1, q).Some?
    ensures LiveAt(AddUpdate(e, c, [], p, le).value, q, le.owner) == KeyLeafAt(c, [], p1, q)
  {
    AddUpdateObserved(e, c, [], p, le, p1);
    AddUpdateObserved(e, c, [], p, le, q);
    KeyLeafSelf(c, [], p1, q);
    if q != p {
      if KeyLeafAt(c, [], p, q).Some? {
        KeyLeafSelf(c, [], p, q);
      } else if p1 != p && KeyLeafAt(c, [], p, p1).Some? {
        KeyLeafTrans(c, [], p, p1, q);
      }
    }
  }

  /** One insertion keeps every owner's key-leaf closure. */
  lemma AddUpdateClosed(e: Entry, c: Ctx, p: Path, le: L.LeafEntry, owner: string)
    requires OwnersUnique(e) && le.owner != DEFAULT && owner != DEFAULT && !le.delete && Matching(e, c, [], le.owner)
    requires AddUpdate(e, c, [], p, le).Some? && KeyConsistent(c, [], p, le.value) && KeyClosed(e, c, owner)
    ensures KeyClosed(AddUpdate(e, c, [], p, le).value, c, owner)
  {
    var e' := AddUpdate(e, c, [], p, le).value;
    forall p1, q | LiveAt(e', p1, owner).Some? && KeyLeafAt(c, [], p1, q).Some?
      ensures LiveAt(e', q, owner) == KeyLeafAt(c, [], p1, q)
    {
      if owner == le.owner {
        ClosureStep(e, c, p, le, p1, q);
      } else {
        AddUpdateOthers(e, c, [], p, le, p1, owner);
        AddUpdateOthers(e, c, [], p, le, q, owner);
      }
    }
  }

  /** Updates to insert, in order. */
  datatype Update = Update(path: Path, le: L.LeafEntry)

  function AddAll(e: Entry, c: Ctx, us: seq<Update>): Option<Entry> {
    if us == [] then Some(e)
    else match AddAll(e, c, us[..|us| - 1])
      case None => None
      case Some(m) => AddUpdate(m, c, [], us[|us| - 1].path, us[|us| - 1].le)
  }

  /** Adds a list of updates one by one, ending at the first the schema does not know. */
  method AddUpdates(e: Entry, c: Ctx, us: seq<Update>) returns (r: Option<Entry>)
    ensures r == AddAll(e, c, us)
  {
    r := Some(e);
    for n := 0 to |us|
      invariant r == AddAll(e, c, us[..n])
    {
      assert us[..n + 1][..n] == us[..n];
      if r.Some? {
        r := AddUpdate(r.value, c, [], us[n].path, us[n].le);
      }
    }
    assert us[..|us|] == us;
  }

  predicate Insertable(c: Ctx, u: Update) {
    u.le.owner != DEFAULT && !u.le.delete && KeyConsistent(c, [], u.path, u.le.value)
  }

  ghost predicate Sound(e: Entry, c: Ctx, owner: string) {
    Matching(e, c, [], owner) && KeyClosed(e, c, owner)
  }

  lemma OthersMatching(e: Entry, c: Ctx, p: Path, le: L.LeafEntry, owner: string)
    requires OwnersUnique(e) && le.owner != DEFAULT && owner != DEFAULT && !le.delete && owner != le.owner
    requires Matching(e, c, [], le.owner) && Matching(e, c, [], owner) && AddUpdate(e, c, [], p, le).Some?
    ensures Matching(AddUpdate(e, c, [], p, le).value, c, [], owner)
  {
    var e' := AddUpdate(e, c, [], p, le).value;
    forall q ensures VariantAt(e', q, owner) == VariantAt(e, q, owner) {
      AddUpdateOthers(e, c, [], p, le, q, owner);
    }
  }

  /** Key-leaf closure: every sequence of insertions, for any owners, with new or existing flags,
      keeps the closure of every owner. */
  lemma {:induction false} KeyLeafClosure(e: Entry, c: Ctx, us: seq<Update>, owner: string)
    requires OwnersUnique(e) && owner != DEFAULT && AddAll(e, c, us).Some?
    requires forall o | o != DEFAULT :: Sound(e, c, o)
    requires forall i | 0 <= i < |us| :: Insertable(c, us[i])
    ensures OwnersUnique(AddAll(e, c, us).value) && Sound(AddAll(e, c, us).value, c, owner)
    decreases |us|
  {
    if us != [] {
      var front, u := us[..|us| - 1], us[|us| - 1];
      var m := AddAll(e, c, front).value;
      KeyLeafClosure(e, c, front, owner);
      KeyLeafClosure(e, c, front, u.le.owner);
      AddUpdateOthers(m, c, [], u.path, u.le, [], owner);
      AddUpdateClosed(m, c, u.path, u.le, owner);
      if owner == u.le.owner {
        AddUpdateMatching(m, c, [], u.path, u.le);
      } else {
        OthersMatching(m, c, u.path, u.le, owner);
      }
    }
  }

  // ---------------------------------------------------------------- exactly when the closure is kept

  /** One insertion keeps the key leaves of every owner in place if and only if it does not put
      another value into a key leaf. */
  lemma InsertionKeepsExactly(e: Entry, c: Ctx, p: Path, le: L.LeafEntry)
    requires OwnersUnique(e) && le.owner != DEFAULT && !le.delete && AddUpdate(e, c, [], p, le).Some?
    requires forall o | o != DEFAULT :: Sound(e, c, o)
    ensures (forall o | o != DEFAULT :: Sound(AddUpdate(e, c, [], p, le).value, c, o)) <==> KeyConsistent(c, [], p, le.value)
  {
    var e' := AddUpdate(e, c, [], p, le).value;
    assert Sound(e, c, le.owner);
    if KeyConsistent(c, [], p, le.value) {
      var u := Update(p, le);
      forall o | o != DEFAULT ensures Sound(e', c, o) {
        assert [u][..0] == [] && AddAll(e, c, [u][..0]) == Some(e);
        KeyLeafClosure(e, c, [u], o);
      }
    } else {
      AddUpdateObserved(e, c, [], p, le, p);
      assert VariantAt(e', p, le.owner).value.value == le.value;
      assert !Sound(e', c, le.owner);
    }
  }

  ghost predicate AllSound(e: Entry, c: Ctx) {
    OwnersUnique(e) && forall o | o != DEFAULT :: Sound(e, c, o)
  }

  lemma {:induction false} AddAllPrefix(e: Entry, c: Ctx, us: seq<Update>, n: nat)
    requires n <= |us| && AddAll(e, c, us).Some?
    ensures AddAll(e, c, us[..n]).Some?
    decreases |us|
  {
    if n == |us| {
      assert us[..n] == us;
    } else {
      assert us[..|us| - 1][..n] == us[..n];
      AddAllPrefix(e, c, us[..|us| - 1], n);
    }
  }

  ghost predicate SoundThroughout(e: Entry, c: Ctx, us: seq<Update>) {
    forall n: nat | n <= |us| && AddAll(e, c, us[..n]).Some? :: AllSound(AddAll(e, c, us[..n]).value, c)
  }

  /** A sequence of insertions keeps the closure throughout if and only if none of them puts
      another value into a key leaf. */
  lemma {:induction false} ClosureExactly(e: Entry, c: Ctx, us: seq<Update>)
    requires AllSound(e, c) && AddAll(e, c, us).Some?
    requires forall i | 0 <= i < |us| :: us[i].le.owner != DEFAULT && !us[i].le.delete
    ensures SoundThroughout(e, c, us) <==> forall i | 0 <= i < |us| :: KeyConsistent(c, [], us[i].path, us[i].le.value)
  {
    if forall i | 0 <= i < |us| :: KeyConsistent(c, [], us[i].path, us[i].le.value) {
      forall n: nat | n <= |us| && AddAll(e, c, us[..n]).Some? ensures AllSound(AddAll(e, c, us[..n]).value, c) {
        forall o | o != DEFAULT ensures OwnersUnique(AddAll(e, c, us[..n]).value) && Sound(AddAll(e, c, us[..n]).value, c, o) {
          KeyLeafClosure(e, c, us[..n], o);
        }
        assert RUNNING != DEFAULT && Sound(AddAll(e, c, us[..n]).value, c, RUNNING);
      }
    }
    if SoundThroughout(e, c, us) {
      forall i | 0 <= i < |us| ensures KeyConsistent(c, [], us[i].path, us[i].le.value) {
        AddAllPrefix(e, c, us, i);
        AddAllPrefix(e, c, us, i + 1);
        assert us[..i + 1][..i] == us[..i];
        assert AllSound(AddAll(e, c, us[..i]).value, c) && AllSound(AddAll(e, c, us[..i + 1]).value, c);
        InsertionKeepsExactly(AddAll(e, c, us[..i]).value, c, us[i].path, us[i].le);
      }
    }
  }

  /** An insertion fails exactly when the schema does not know its path. */
  lemma {:induction false} AddUpdateSucceeds(e: Entry, c: Ctx, names: seq<string>, p: Path, le: L.LeafEntry)
    ensures AddUpdate(e, c, names, p, le).Some? <==> CtxAt(c, p).Some?
    decreases p
  {
    if p != [] && ChildCtx(c, p[0]).Some? {
      var d := ChildCtx(c, p[0]).value;
      AddUpdateSucceeds(ChildOrNew(Prepared(e, c, names, le), d, p[0]), d, Below(d, names, p[0]), p[1..], le);
    }
  }

  /** A list "l" with the single key "k". */
  function KeyedList(): Schema {
    Container(["k"], false, map["k" := Field("string")], map[])
  }

  function ListRoot(): Ctx {
    Ctx(Container([], false, map["l" := KeyedList()], map[]), 0)
  }

  lemma KeyOfElementOne()
    ensures KeyLeafAt(ListRoot(), [], ["l", "1", "k"], ["l", "1", "k"]) == Some(Value("string", "1"))
    ensures CtxAt(ListRoot(), ["l", "1", "k"]).Some?
  {
    var p, list, inside := ["l", "1", "k"], Ctx(KeyedList(), 0), Ctx(KeyedList(), 1);
    assert ["k"][1..] == [] && Alphabetical([]) == [];
    assert Alphabetical(["k"]) == ["k"];
    assert p[1..] == ["1", "k"] && p[1..][1..] == ["k"] && ["k"][0] == "k";
    assert ElementKey(inside, ["1"], "k") == Some(Value("string", "1"));
    assert KeyLeafAt(inside, ["1"], ["k"], ["k"]) == Some(Value("string", "1"));
    assert ChildCtx(list, "1") == Some(inside) && [] + ["1"] == ["1"];
    assert KeyLeafAt(list, [], ["1", "k"], ["1", "k"]) == Some(Value("string", "1"));
    assert CtxAt(inside, ["k"]).Some? && CtxAt(list, ["1", "k"]).Some?;
  }

  /** The failing input: in an empty tree the key leaf of list element "1" is given the value "2". */
  lemma MisnamedKeyBreaks(le: L.LeafEntry)
    requires le.owner != DEFAULT && !le.delete && le.value == Value("string", "2")
    ensures var after := AddUpdate(NewEntry(ListRoot()), ListRoot(), [], ["l", "1", "k"], le);
            after.Some? && !Sound(after.value, ListRoot(), le.owner)
  {
    var c, p := ListRoot(), ["l", "1", "k"];
    KeyOfElementOne();
    AddUpdateSucceeds(NewEntry(c), c, [], p, le);
    NewEntryEmpty(c, [], le.owner);
    forall q ensures VariantAt(NewEntry(c), q, le.owner).None? {
      NewEntryEmpty(c, q, le.owner);
    }
    AddUpdateObserved(NewEntry(c), c, [], p, le, p);
    assert "1"[0] != "2"[0];
  }
}
