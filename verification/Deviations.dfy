/** The deviation report of one leaf (pkg/tree/api/leaf_variants.go, GetDeviations). */
module Deviations {
  import opened Base
  import opened Leaves

  datatype Reason = Unhandled | NotApplied | Overruled

  datatype Deviation = Deviation(owner: string, reason: Reason, expected: Option<Value>, current: Option<Value>)

  /** The leading intent: the first intent variant of least priority number, whatever its flags. */
  predicate Leads(les: seq<LeafEntry>, n: nat, i: nat)
    requires n <= |les|
  {
    && i < n && IsIntent(les[i].owner)
    && forall j | 0 <= j < n && IsIntent(les[j].owner) ::
         les[i].priority <= les[j].priority && (j < i ==> les[i].priority < les[j].priority)
  }

  /** What the report must contain for an overruled variant. */
  function OverruledBy(lead: LeafEntry, l: LeafEntry): Deviation {
    Deviation(l.owner, Overruled, Some(l.value), Some(lead.value))
  }

  ghost predicate OverruledExactly(les: seq<LeafEntry>, lead: nat, out: seq<Deviation>)
    requires lead < |les|
  {
    forall d: Deviation :: d in out && d.reason == Overruled <==>
      exists i | 0 <= i < |les| ::
        i != lead && IsIntent(les[i].owner) && les[i].value != les[lead].value && d == OverruledBy(les[lead], les[i])
  }

  /** Every losing intent with another value than the leader's is sent once, or twice if it led
      for a while but not from the start. */
  ghost predicate SentOften(les: seq<LeafEntry>, lead: nat, out: seq<Deviation>)
    requires lead < |les|
  {
    forall j: nat | j < |les| && j != lead && IsIntent(les[j].owner) && les[j].value != les[lead].value ::
      multiset(out)[OverruledBy(les[lead], les[j])] == if StrictLeader(les, j) && !FirstIntent(les, j) then 2 else 1
  }

  predicate NotAppliedReported(les: seq<LeafEntry>, lead: LeafEntry, out: seq<Deviation>) {
    exists i | 0 <= i < |out| ::
      out[i] == Deviation(lead.owner, NotApplied, Some(lead.value), RunningValue(les))
  }

  // ---------------------------------------------------------------- how often a loser is listed

  predicate FirstIntent(les: seq<LeafEntry>, j: nat)
    requires j < |les|
  {
    forall i | 0 <= i < j :: !IsIntent(les[i].owner)
  }

  /** The scan takes j for the leader when it meets it. */
  predicate StrictLeader(les: seq<LeafEntry>, j: nat)
    requires j < |les|
  {
    IsIntent(les[j].owner) && forall i | 0 <= i < j && IsIntent(les[i].owner) :: les[j].priority < les[i].priority
  }

  predicate Displaced(les: seq<LeafEntry>, n: nat, j: nat)
    requires j < n <= |les|
  {
    exists i | j < i < n :: IsIntent(les[i].owner) && les[i].priority < les[j].priority
  }

  /** How often the scan over the first n variants lists j: when it is met, unless it is the
      first intent, and again when it is displaced as the leader. */
  function Times(les: seq<LeafEntry>, n: nat, j: nat): nat
    requires j < n <= |les|
  {
    if !IsIntent(les[j].owner) then 0
    else (if FirstIntent(les, j) then 0 else 1) + (if StrictLeader(les, j) && Displaced(les, n, j) then 1 else 0)
  }

  /** Variant n takes the lead from j. */
  predicate Displaces(les: seq<LeafEntry>, lead: Option<nat>, n: nat, j: nat)
    requires j < n < |les|
  {
    lead == Some(j) && IsIntent(les[n].owner) && les[n].priority < les[j].priority
  }

  predicate LeadSoFar(les: seq<LeafEntry>, n: nat, lead: Option<nat>)
    requires n <= |les|
  {
    match lead
    case None => forall j | 0 <= j < n :: !IsIntent(les[j].owner)
    case Some(h) => Leads(les, n, h) && StrictLeader(les, h) && !Displaced(les, n, h)
  }

  lemma TimesStep(les: seq<LeafEntry>, n: nat, lead: Option<nat>, j: nat)
    requires j < n < |les| && LeadSoFar(les, n, lead)
    ensures Times(les, n + 1, j) == Times(les, n, j) + if Displaces(les, lead, n, j) then 1 else 0
  {
    assert Displaced(les, n + 1, j) <==> Displaced(les, n, j) || (IsIntent(les[n].owner) && les[n].priority < les[j].priority);
    if StrictLeader(les, j) && lead != Some(j) {
      assert j < lead.value && les[lead.value].priority < les[j].priority;
      assert Displaced(les, n, j);
    }
  }

  lemma TimesNew(les: seq<LeafEntry>, n: nat, lead: Option<nat>)
    requires n < |les| && LeadSoFar(les, n, lead)
    ensures Times(les, n + 1, n) == if IsIntent(les[n].owner) && lead.Some? then 1 else 0
  {
  }

  /** A losing intent is listed twice exactly when it was, for a while but not from the start,
      the leader; otherwise once. */
  lemma LoserTimes(les: seq<LeafEntry>, lead: nat, j: nat)
    requires Leads(les, |les|, lead) && j < |les| && j != lead && IsIntent(les[j].owner)
    ensures Times(les, |les|, j) == if StrictLeader(les, j) && !FirstIntent(les, j) then 2 else 1
  {
    if StrictLeader(les, j) {
      assert les[lead].priority < les[j].priority && j < lead;
    } else {
      assert !FirstIntent(les, j);
    }
  }

  /** The list so far: intents only, each as often as it should be. */
  ghost predicate ListedSoFar(les: seq<LeafEntry>, n: nat, overruled: seq<nat>)
    requires n <= |les|
  {
    && (forall k | 0 <= k < |overruled| :: overruled[k] < n && IsIntent(les[overruled[k]].owner))
    && (forall j: nat | j < n :: multiset(overruled)[j] == Times(les, n, j))
  }

  lemma NewLead(les: seq<LeafEntry>, i: nat, highest: Option<nat>)
    requires i < |les| && IsIntent(les[i].owner) && LeadSoFar(les, i, highest)
    ensures highest.None? || les[i].priority < les[highest.value].priority ==> LeadSoFar(les, i + 1, Some(i))
    ensures highest.Some? && les[i].priority >= les[highest.value].priority ==> LeadSoFar(les, i + 1, highest)
  {
  }

  /** Listing the met intent, and before it the leader it displaces, keeps the counts right. */
  lemma ListedGrows(les: seq<LeafEntry>, i: nat, h: nat, overruled: seq<nat>)
    requires i < |les| && IsIntent(les[i].owner) && LeadSoFar(les, i, Some(h)) && ListedSoFar(les, i, overruled)
    ensures ListedSoFar(les, i + 1, overruled + (if les[i].priority < les[h].priority then [h] else []) + [i])
  {
    var listed := overruled + (if les[i].priority < les[h].priority then [h] else []) + [i];
    assert multiset(overruled)[i] == 0;
    TimesNew(les, i, Some(h));
    forall j: nat | j < i + 1 ensures multiset(listed)[j] == Times(les, i + 1, j) {
      if j < i {
        TimesStep(les, i, Some(h), j);
      }
    }
  }

  lemma FirstMet(les: seq<LeafEntry>, i: nat)
    requires i < |les| && IsIntent(les[i].owner) && LeadSoFar(les, i, None)
    ensures ListedSoFar(les, i + 1, [])
  {
    TimesNew(les, i, None);
  }

  /** The scan meets one more intent. */
  method MeetIntent(les: seq<LeafEntry>, i: nat, highest: Option<nat>, overruled: seq<nat>) returns (lead: nat, listed: seq<nat>)
    requires i < |les| && IsIntent(les[i].owner) && LeadSoFar(les, i, highest) && ListedSoFar(les, i, overruled)
    requires highest.None? ==> overruled == []
    ensures LeadSoFar(les, i + 1, Some(lead)) && ListedSoFar(les, i + 1, listed)
  {
    NewLead(les, i, highest);
    if highest.None? {
      FirstMet(les, i);
      return i, [];
    }
    ListedGrows(les, i, highest.value, overruled);
    lead, listed := highest.value, overruled;
    if les[i].priority < les[lead].priority {
      listed := listed + [lead];
      lead := i;
    } else {
      assert overruled + [] == overruled;
    }
    // a new leader itself passes this test and is listed too; the value filter drops it
    if les[i].priority >= les[lead].priority {
      listed := listed + [i];
    }
  }

  lemma OtherMet(les: seq<LeafEntry>, i: nat, highest: Option<nat>, overruled: seq<nat>)
    requires i < |les| && !IsIntent(les[i].owner) && LeadSoFar(les, i, highest) && ListedSoFar(les, i, overruled)
    ensures LeadSoFar(les, i + 1, highest) && ListedSoFar(les, i + 1, overruled)
  {
    forall j: nat | j < i ensures Times(les, i + 1, j) == Times(les, i, j) {
      TimesStep(les, i, highest, j);
    }
    TimesNew(les, i, highest);
    assert multiset(overruled)[i] == 0;
  }

  /** The variant of the device met so far. */
  ghost predicate RunningSoFar(les: seq<LeafEntry>, n: nat, running: Option<nat>)
    requires n <= |les|
  {
    match running
    case None => forall j | 0 <= j < n :: les[j].owner != RUNNING
    case Some(r) => r < n && les[r].owner == RUNNING
  }

  /** The one-pass scan: the device's variant, the leader, and the intents it lists as overruled,
      the leader possibly among them. */
  method ScanIntents(les: seq<LeafEntry>) returns (running: Option<nat>, highest: Option<nat>, overruled: seq<nat>)
    ensures RunningSoFar(les, |les|, running)
    ensures LeadSoFar(les, |les|, highest) && ListedSoFar(les, |les|, overruled)
  {
    running, highest, overruled := None, None, [];
    for i := 0 to |les|
      invariant RunningSoFar(les, i, running) && LeadSoFar(les, i, highest) && ListedSoFar(les, i, overruled)
      invariant highest.None? ==> overruled == []
    {
      if IsIntent(les[i].owner) {
        var lead;
        lead, overruled := MeetIntent(les, i, highest, overruled);
        highest := Some(lead);
      } else {
        OtherMet(les, i, highest, overruled);
        if les[i].owner == RUNNING {
          running := Some(i);
        }
      }
    }
  }

  /** The report of an active leaf names as overruled exactly the losing intents whose value
      differs from the leader's, each once or, if it led for a while but not from the start,
      twice; it says NotApplied exactly when the device lacks the leader's
      value, and Unhandled exactly when the device holds a value no intent speaks for. */
  method GetDeviations(les: seq<LeafEntry>, isActiveCase: bool) returns (out: seq<Deviation>)
    requires WellFormed(les)
    ensures !isActiveCase ==>
              out == seq(|les|, i requires 0 <= i < |les| => Deviation(les[i].owner, Overruled, Some(les[i].value), None))
    ensures isActiveCase && !HasIntent(les) ==>
              out == if HasRunning(les) then [Deviation(RUNNING, Unhandled, None, RunningValue(les))] else []
    ensures isActiveCase && HasIntent(les) ==>
              exists lead: nat :: Leads(les, |les|, lead)
                && OverruledExactly(les, lead, out) && SentOften(les, lead, out)
                && (NotAppliedReported(les, les[lead], out) <==> RunningValue(les) != Some(les[lead].value))
                && forall d | d in out && d.reason != Overruled ::
                     d == Deviation(les[lead].owner, NotApplied, Some(les[lead].value), RunningValue(les))
  {
    if |les| == 0 {
      return [];
    }
    if !isActiveCase {
      out := AllOverruled(les);
      return;
    }
    var running, highest, overruled := ScanIntents(les);
    if running.Some? {
      ByOwnerAt(les, running.value);
    }
    if highest.None? {
      if running.None? {
        return [];
      }
      return [Deviation(RUNNING, Unhandled, None, Some(les[running.value].value))];
    }
    out := SendOverruled(les, highest.value, overruled);
    ReportOverruled(les, highest.value, overruled, out);
    if RunningValue(les) != Some(les[highest.value].value) {
      AppendNotApplied(les, highest.value, out);
      out := out + [NotAppliedOf(les, les[highest.value])];
    }
    assert Leads(les, |les|, highest.value) && OverruledExactly(les, highest.value, out) && SentOften(les, highest.value, out);
  }

  function NotAppliedOf(les: seq<LeafEntry>, lead: LeafEntry): Deviation {
    Deviation(lead.owner, NotApplied, Some(lead.value), RunningValue(les))
  }

  lemma AppendNotApplied(les: seq<LeafEntry>, lead: nat, out: seq<Deviation>)
    requires lead < |les| && OverruledExactly(les, lead, out) && forall d | d in out :: d.reason == Overruled
    ensures var out' := out + [NotAppliedOf(les, les[lead])];
            && (SentOften(les, lead, out) ==> SentOften(les, lead, out'))
            && OverruledExactly(les, lead, out') && NotAppliedReported(les, les[lead], out')
            && forall d | d in out' && d.reason != Overruled :: d == NotAppliedOf(les, les[lead])
  {
    var last := NotAppliedOf(les, les[lead]);
    var out' := out + [last];
    assert out'[|out|] == last;
    assert forall d: Deviation :: d in out' <==> d in out || d == last;
  }

  /** A leaf of an inactive case: all its variants are overruled. */
  method AllOverruled(les: seq<LeafEntry>) returns (out: seq<Deviation>)
    ensures out == seq(|les|, i requires 0 <= i < |les| => Deviation(les[i].owner, Overruled, Some(les[i].value), None))
  {
    out := [];
    var i := 0;
    while i < |les|
      invariant 0 <= i <= |les|
      invariant out == seq(i, j requires 0 <= j < i => Deviation(les[j].owner, Overruled, Some(les[j].value), None))
    {
      out := out + [Deviation(les[i].owner, Overruled, Some(les[i].value), None)];
      i := i + 1;
    }
  }

  /** Sends the listed variants whose value differs from the leader's, each as often as listed. */
  method SendOverruled(les: seq<LeafEntry>, lead: nat, overruled: seq<nat>) returns (out: seq<Deviation>)
    requires UniqueOwners(les) && lead < |les|
    requires forall k | 0 <= k < |overruled| :: overruled[k] < |les| && IsIntent(les[overruled[k]].owner)
    ensures forall d | d in out :: d.reason == Overruled
    ensures forall d | d in out :: exists j: nat :: j < |les| && j in overruled && les[j].value != les[lead].value && d == OverruledBy(les[lead], les[j])
    ensures forall j: nat | j < |les| && les[j].value != les[lead].value ::
              multiset(out)[OverruledBy(les[lead], les[j])] == multiset(overruled)[j]
  {
    out := [];
    var i := 0;
    while i < |overruled|
      invariant 0 <= i <= |overruled|
      invariant forall d | d in out :: exists j: nat :: j < |les| && j in overruled && les[j].value != les[lead].value && d == OverruledBy(les[lead], les[j])
      invariant forall j: nat | j < |les| && les[j].value != les[lead].value ::
                  multiset(out)[OverruledBy(les[lead], les[j])] == multiset(overruled[..i])[j]
    {
      var j := overruled[i];
      assert overruled[..i + 1] == overruled[..i] + [j];
      if les[j].value != les[lead].value {
        assert forall k: nat | k < |les| && k != j :: les[k].owner != les[j].owner;
        out := out + [OverruledBy(les[lead], les[j])];
      }
      i := i + 1;
    }
    assert overruled[..|overruled|] == overruled;
  }

  /** From the multiplicities in the list to the report. */
  lemma ReportOverruled(les: seq<LeafEntry>, lead: nat, overruled: seq<nat>, out: seq<Deviation>)
    requires UniqueOwners(les) && Leads(les, |les|, lead)
    requires forall k | 0 <= k < |overruled| :: overruled[k] < |les| && IsIntent(les[overruled[k]].owner)
    requires forall j: nat | j < |les| :: multiset(overruled)[j] == Times(les, |les|, j)
    requires forall d | d in out :: d.reason == Overruled
    requires forall d | d in out :: exists j: nat :: j < |les| && j in overruled && les[j].value != les[lead].value && d == OverruledBy(les[lead], les[j])
    requires forall j: nat | j < |les| && les[j].value != les[lead].value ::
               multiset(out)[OverruledBy(les[lead], les[j])] == multiset(overruled)[j]
    ensures OverruledExactly(les, lead, out) && SentOften(les, lead, out)
  {
    forall j: nat | j < |les| && j != lead && IsIntent(les[j].owner) && les[j].value != les[lead].value
      ensures multiset(out)[OverruledBy(les[lead], les[j])] == if StrictLeader(les, j) && !FirstIntent(les, j) then 2 else 1
    {
      LoserTimes(les, lead, j);
    }
    forall d: Deviation ensures d in out && d.reason == Overruled <==>
      exists i | 0 <= i < |les| ::
        i != lead && IsIntent(les[i].owner) && les[i].value != les[lead].value && d == OverruledBy(les[lead], les[i])
    {
      if i :| 0 <= i < |les| && i != lead && IsIntent(les[i].owner) && les[i].value != les[lead].value && d == OverruledBy(les[lead], les[i]) {
        assert multiset(out)[d] >= 1;
        assert d in multiset(out);
      }
    }
  }

  /** A leaf whose middle intent is reported twice: it leads between the first and the last. */
  lemma SentTwice(out: seq<Deviation>)
    ensures var les := [LeafEntry("a", 3, Value("string", "x"), false, false, false, false, false),
                        LeafEntry("b", 2, Value("string", "y"), false, false, false, false, false),
                        LeafEntry("c", 1, Value("string", "z"), false, false, false, false, false)];
            && WellFormed(les) && Leads(les, 3, 2)
            && (SentOften(les, 2, out) ==> multiset(out)[OverruledBy(les[2], les[0])] == 1 && multiset(out)[OverruledBy(les[2], les[1])] == 2)
  {
    var les := [LeafEntry("a", 3, Value("string", "x"), false, false, false, false, false),
                LeafEntry("b", 2, Value("string", "y"), false, false, false, false, false),
                LeafEntry("c", 1, Value("string", "z"), false, false, false, false, false)];
    assert les[0].owner[0] != les[1].owner[0] && les[1].owner[0] != les[2].owner[0] && les[0].owner[0] != les[2].owner[0];
    assert |RUNNING| == 7 && |DEFAULT| == 7;
    assert les[0].value.text[0] != les[2].value.text[0] && les[1].value.text[0] != les[2].value.text[0];
    assert FirstIntent(les, 0) && StrictLeader(les, 1) && !FirstIntent(les, 1);
  }

  predicate FlagFree(les: seq<LeafEntry>) {
    forall i | 0 <= i < |les| ::
      !les[i].isNew && !les[i].delete && !les[i].onlyIntended && !les[i].isUpdated && !les[i].explicitDelete
  }

  /** On a leaf without flags, for revertive intents, NotApplied is reported for the leader
      exactly when the southbound decision sends that very variant. */
  lemma NotAppliedIsSent(les: seq<LeafEntry>, lead: nat)
    requires WellFormed(les) && FlagFree(les) && Leads(les, |les|, lead)
    ensures RunningValue(les) != Some(les[lead].value) <==>
            HighestPrecedence(les, true, false, false, {}) == Some(les[lead])
    ensures HighestPrecedence(les, true, false, false, {}) in {None, Some(les[lead])}
  {
    assert les[lead].Survives();
    CanDeleteMeaning(les);
    HighestIsFirstMin(les, |les|);
    HighestOwner(les);
    var h := ScanPrefix(les, |les|).highest.value;
    assert h == lead by {
      assert les[h].priority <= les[lead].priority && les[lead].priority <= les[h].priority;
    }
  }
}
