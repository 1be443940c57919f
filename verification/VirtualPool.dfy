/** The virtual pool protocol (pkg/pool/virtual_pool.go) as interleaved atomic steps. One ticket
    stands for one submission from the moment it has counted itself as in flight; any number of
    submitters, workers and closers interleave, and every read or write of a shared field is a
    step of its own. A refused nested submission undoes its count concurrently with its parent. */
module VirtualPool {
  import opened Base

  type Err = string
  type Ticket = nat

  datatype Mode = FailFast | Tolerant

  datatype Phase =
    | Checking        // counted; about to read closed
    | CheckingFailed  // about to read the first error
    | Submitting      // about to hand the task to the shared pool
    | Queued
    | Picked          // a worker has it; about to read the first error
    | Running
    | Spawning        // a running task that saw no failure and is about to count a child
    | Recorded        // fail-fast error recorded; about to store closed
    | Releasing       // about to decrement the counter
    | FlagRead        // saw the counter reach zero; about to read closed
    | Signalling      // saw closed; about to close done
    | Gone

  datatype CloserPhase = Loading | CloserSignalling | CloserDone

  datatype State = State(
    mode: Mode, closed: bool, firstErr: Option<Err>, inflight: int, done: bool, errs: multiset<Err>,
    tickets: map<Ticket, Phase>, closers: map<nat, CloserPhase>,
    // history
    tops: nat, accepted: set<Ticket>, started: multiset<Ticket>, skipped: multiset<Ticket>,
    results: map<Ticket, Option<Err>>)

  function Init(mode: Mode): State {
    State(mode, false, None, 0, false, multiset{}, map[], map[], 0, {}, multiset{}, multiset{}, map[])
  }

  datatype Step =
    | StartTop(t: Ticket)
    | ReadClosed(t: Ticket)
    | ReadFailed(t: Ticket)
    | Accept(t: Ticket)
    | Refuse(t: Ticket)
    | Pick(t: Ticket)
    | Begin(t: Ticket)
    | NestedCheck(t: Ticket)
    | Spawn(t: Ticket, child: Ticket)
    | Return(t: Ticket, err: Option<Err>)
    | StoreClosed(t: Ticket)
    | Decrement(t: Ticket)
    | ReadFlag(t: Ticket)
    | Signal(t: Ticket)
    | Close(c: nat)
    | LoadInflight(c: nat)
    | CloserSignal(c: nat)

  predicate In(s: State, t: Ticket, ph: Phase) {
    t in s.tickets && s.tickets[t] == ph
  }

  predicate Enabled(s: State, step: Step) {
    match step
    case StartTop(t) => t !in s.tickets
    case ReadClosed(t) => In(s, t, Checking)
    case ReadFailed(t) => In(s, t, CheckingFailed)
    case Accept(t) => In(s, t, Submitting)
    case Refuse(t) => In(s, t, Submitting)
    case Pick(t) => In(s, t, Queued)
    case Begin(t) => In(s, t, Picked)
    case NestedCheck(t) => In(s, t, Running) && s.firstErr.None?
    case Spawn(t, child) => In(s, t, Spawning) && child !in s.tickets
    case Return(t, _) => In(s, t, Running)
    case StoreClosed(t) => In(s, t, Recorded)
    case Decrement(t) => In(s, t, Releasing)
    case ReadFlag(t) => In(s, t, FlagRead)
    case Signal(t) => In(s, t, Signalling)
    case Close(c) => c !in s.closers
    case LoadInflight(c) => c in s.closers && s.closers[c] == Loading
    case CloserSignal(c) => c in s.closers && s.closers[c] == CloserSignalling
  }

  /** Steps that move exactly one ticket. */
  predicate MovesOne(step: Step) {
    !step.Close? && !step.LoadInflight? && !step.CloserSignal? && !step.Spawn?
  }

  /** Where a step sends its ticket. */
  function Target(s: State, step: Step): Phase
    requires MovesOne(step)
  {
    match step
    case StartTop(t) => Checking
    case ReadClosed(t) => if s.closed then Releasing else CheckingFailed
    case ReadFailed(t) => if s.firstErr.Some? then Releasing else Submitting
    case Accept(t) => Queued
    case Refuse(t) => Releasing
    case Pick(t) => Picked
    case Begin(t) => if s.firstErr.Some? then Releasing else Running
    case NestedCheck(t) => Spawning
    case Return(t, err) => if err.Some? && s.mode.FailFast? then Recorded else Releasing
    case StoreClosed(t) => Releasing
    case Decrement(t) => if s.inflight == 1 then FlagRead else Gone
    case ReadFlag(t) => if s.closed then Signalling else Gone
    case Signal(t) => Gone
  }

  function Tickets(s: State, step: Step): map<Ticket, Phase> {
    if MovesOne(step) then s.tickets[step.t := Target(s, step)]
    else if step.Spawn? then s.tickets[step.t := Running][step.child := Submitting]
    else s.tickets
  }

  /** What a step does to the shared fields and the history. */
  function Fields(s: State, step: Step): State {
    match step
    case StartTop(t) => s.(inflight := s.inflight + 1, tops := s.tops + 1)
    case Accept(t) => s.(accepted := s.accepted + {t})
    case Begin(t) =>
      if s.firstErr.Some? then s.(skipped := s.skipped + multiset{t}) else s.(started := s.started + multiset{t})
    case Spawn(t, child) => s.(inflight := s.inflight + 1)
    case Return(t, err) =>
      var s' := s.(results := s.results[t := err]);
      if err.None? then s'
      else if s.mode.FailFast? then s'.(firstErr := if s.firstErr.None? then err else s.firstErr)
      else s'.(errs := s.errs + multiset{err.value})
    case StoreClosed(t) => s.(closed := true)
    case Decrement(t) => s.(inflight := s.inflight - 1)
    case Signal(t) => s.(done := true)
    case Close(c) => s.(closed := true, closers := s.closers[c := Loading])
    case LoadInflight(c) => s.(closers := s.closers[c := if s.inflight == 0 then CloserSignalling else CloserDone])
    case CloserSignal(c) => s.(closers := s.closers[c := CloserDone], done := true)
    case _ => s
  }

  function Do(s: State, step: Step): State
    requires Enabled(s, step)
  {
    Fields(s, step).(tickets := Tickets(s, step))
  }

  /** The state after a run, if every step of it was possible. */
  function Execute(s: State, steps: seq<Step>): Option<State> {
    if steps == [] then Some(s)
    else
      match Execute(s, steps[..|steps| - 1])
      case None => None
      case Some(m) => if Enabled(m, steps[|steps| - 1]) then Some(Do(m, steps[|steps| - 1])) else None
  }

  predicate Reached(mode: Mode, steps: seq<Step>, s: State) {
    Execute(Init(mode), steps) == Some(s)
  }

  // ---------------------------------------------------------------- the counter

  predicate HoldsToken(ph: Phase) {
    !ph.FlagRead? && !ph.Signalling? && !ph.Gone?
  }

  function Tokens(tickets: map<Ticket, Phase>): set<Ticket> {
    set t | t in tickets && HoldsToken(tickets[t])
  }

  /** The in-flight counter counts the tickets that have not been released. */
  predicate Counted(s: State) {
    s.inflight == |Tokens(s.tickets)|
  }

  function Weight(tickets: map<Ticket, Phase>, t: Ticket): nat {
    if t in tickets && HoldsToken(tickets[t]) then 1 else 0
  }

  lemma CountMove(tickets: map<Ticket, Phase>, t: Ticket, ph: Phase)
    ensures |Tokens(tickets[t := ph])| == |Tokens(tickets)| - Weight(tickets, t) + (if HoldsToken(ph) then 1 else 0)
  {
    var before, after := Tokens(tickets), Tokens(tickets[t := ph]);
    if HoldsToken(ph) {
      assert after == before + {t};
    } else {
      assert after == before - {t};
    }
  }

  /** What a step that moves one ticket does to the tickets and the counter. */
  lemma OneMove(s: State, step: Step)
    requires Enabled(s, step) && MovesOne(step)
    ensures var s' := Do(s, step);
            && step.t in s'.tickets && s'.tickets == s.tickets[step.t := s'.tickets[step.t]]
            && s'.closers == s.closers
            && s'.inflight == s.inflight - Weight(s.tickets, step.t) + Weight(s'.tickets, step.t)
  {
    OneCounted(s, step);
    assert Tickets(s, step) == s.tickets[step.t := Target(s, step)];
    assert s.tickets[step.t := Target(s, step)][step.t] == Target(s, step);
  }

  lemma OneCounted(s: State, step: Step)
    requires Enabled(s, step) && MovesOne(step)
    ensures Fields(s, step).closers == s.closers
    ensures Fields(s, step).inflight == s.inflight - Weight(s.tickets, step.t) + (if HoldsToken(Target(s, step)) then 1 else 0)
  {
    if !step.StartTop? && !step.Decrement? {
      InflightKept(s, step);
      TokenKept(s, step);
    }
  }

  lemma BeginKeepsInflight(s: State, t: Ticket)
    ensures Fields(s, Begin(t)).closers == s.closers && Fields(s, Begin(t)).inflight == s.inflight
  {
  }

  lemma ReturnKeepsInflight(s: State, step: Step)
    requires step.Return?
    ensures Fields(s, step).closers == s.closers && Fields(s, step).inflight == s.inflight
  {
  }

  lemma NoFields(s: State, step: Step)
    requires step.ReadClosed? || step.ReadFailed? || step.Refuse? || step.Pick? || step.NestedCheck? || step.ReadFlag?
    ensures Fields(s, step) == s
  {
  }

  lemma InflightKept(s: State, step: Step)
    requires MovesOne(step) && !step.StartTop? && !step.Decrement?
    ensures Fields(s, step).closers == s.closers && Fields(s, step).inflight == s.inflight
  {
    if step.Begin? {
      BeginKeepsInflight(s, step.t);
    } else if step.Return? {
      ReturnKeepsInflight(s, step);
    } else if !step.Accept? && !step.StoreClosed? && !step.Signal? {
      NoFields(s, step);
    }
  }

  lemma TokenKept(s: State, step: Step)
    requires Enabled(s, step) && MovesOne(step) && !step.StartTop? && !step.Decrement?
    ensures step.t in s.tickets && (HoldsToken(s.tickets[step.t]) <==> HoldsToken(Target(s, step)))
  {
  }

  lemma CountedStep(s: State, step: Step)
    requires Counted(s) && Enabled(s, step)
    ensures Counted(Do(s, step))
  {
    var s' := Do(s, step);
    if MovesOne(step) {
      OneMove(s, step);
      CountMove(s.tickets, step.t, s'.tickets[step.t]);
    } else if step.Spawn? {
      CountMove(s.tickets, step.t, Running);
      CountMove(s.tickets[step.t := Running], step.child, Submitting);
    }
  }

  lemma TokenCounts(s: State, t: Ticket)
    requires Counted(s) && t in s.tickets && HoldsToken(s.tickets[t])
    ensures s.inflight > 0
  {
    assert t in Tokens(s.tickets);
  }

  lemma NoTokens(s: State)
    requires Counted(s) && s.inflight == 0
    ensures forall t | t in s.tickets :: !HoldsToken(s.tickets[t])
  {
    forall t | t in s.tickets ensures !HoldsToken(s.tickets[t]) {
      if HoldsToken(s.tickets[t]) {
        TokenCounts(s, t);
      }
    }
  }

  // ---------------------------------------------------------------- no lost wake-up

  predicate PendingTicket(s: State, t: Ticket) {
    t in s.tickets && (s.tickets[t].FlagRead? || s.tickets[t].Signalling?)
  }

  predicate PendingCloser(s: State, c: nat) {
    c in s.closers && !s.closers[c].CloserDone?
  }

  /** Some thread is between its counter step and its flag step, or about to signal. */
  ghost predicate Waking(s: State) {
    (exists t :: PendingTicket(s, t)) || (exists c :: PendingCloser(s, c))
  }

  predicate ClosedSeen(s: State) {
    && (forall t | t in s.tickets && s.tickets[t].Signalling? :: s.closed)
    && (s.closers != map[] ==> s.closed)
    && (s.done ==> s.closed)
  }

  ghost predicate WakeUp(s: State) {
    s.closed ==> s.done || s.inflight > 0 || Waking(s)
  }

  lemma ClosedSeenStep(s: State, step: Step)
    requires ClosedSeen(s) && Enabled(s, step)
    ensures ClosedSeen(Do(s, step))
    ensures s.closed ==> Do(s, step).closed
    ensures s.done ==> Do(s, step).done
  {
  }

  lemma WakeUpStep(s: State, step: Step)
    requires Counted(s) && WakeUp(s) && Enabled(s, step)
    ensures WakeUp(Do(s, step))
  {
    var s' := Do(s, step);
    CountedStep(s, step);
    if MovesOne(step) {
      OneMove(s, step);
      var t := step.t;
      if HoldsToken(s'.tickets[t]) {
        TokenCounts(s', t);
      } else if t in s.tickets && HoldsToken(s.tickets[t]) {
        assert step.Decrement?;
        assert s'.inflight == 0 ==> PendingTicket(s', t);
      } else {
        assert PendingTicket(s, t) && (step.ReadFlag? || step.Signal?);
        assert s.closed && !s'.done ==> PendingTicket(s', t);
      }
    } else if step.Close? {
      assert PendingCloser(s', step.c);
    } else if step.LoadInflight? {
      assert s.inflight == 0 ==> PendingCloser(s', step.c);
    } else if step.Spawn? {
      TokenCounts(s', step.child);
    }
  }

  // ---------------------------------------------------------------- drain safety

  /** Accepted and not finished: queued, taken by a worker, or running. */
  predicate Unfinished(ph: Phase) {
    ph.Queued? || ph.Picked? || ph.Running? || ph.Spawning? || ph.Recorded?
  }

  /** Once done is closed, nothing accepted is queued or running. */
  predicate Drained(s: State) {
    s.done ==> forall t | t in s.tickets :: !Unfinished(s.tickets[t])
  }

  /** No ticket can ever be accepted from here while the pool is closed. */
  predicate Quiet(ph: Phase) {
    ph.Checking? || ph.Releasing? || !HoldsToken(ph)
  }

  predicate AllQuiet(s: State) {
    forall t | t in s.tickets :: Quiet(s.tickets[t])
  }

  ghost predicate Announcing(s: State) {
    s.done || (exists t :: In(s, t, Signalling)) || (exists c :: c in s.closers && s.closers[c].CloserSignalling?)
  }

  /** With at most one top-level submission, a counter seen at zero stays at zero, and nobody
      is announced to while something can still be accepted. */
  ghost predicate OneTop(s: State) {
    && (s.tops == 0 ==> s.tickets == map[])
    && (forall t | In(s, t, FlagRead) || In(s, t, Signalling) :: s.inflight == 0)
    && (Announcing(s) ==> s.closed && AllQuiet(s))
  }

  lemma OneTopQuiet(s: State, step: Step)
    requires Counted(s) && ClosedSeen(s) && OneTop(s) && Enabled(s, step) && Do(s, step).tops <= 1
    requires Announcing(s)
    ensures Do(s, step).closed && AllQuiet(Do(s, step))
  {
    ClosedSeenStep(s, step);
    var s' := Do(s, step);
    if MovesOne(step) {
      OneMove(s, step);
      assert Quiet(s'.tickets[step.t]) by {
        assert step.t in s.tickets ==> Quiet(s.tickets[step.t]);
      }
    }
  }

  lemma OneTopAnnounces(s: State, step: Step)
    requires Counted(s) && ClosedSeen(s) && OneTop(s) && Enabled(s, step)
    requires !Announcing(s) && Announcing(Do(s, step))
    ensures Do(s, step).closed && AllQuiet(Do(s, step))
  {
    var s' := Do(s, step);
    if MovesOne(step) {
      OneMove(s, step);
      assert !step.Signal? && !s'.done;
      var t :| In(s', t, Signalling);
      assert !In(s, t, Signalling);
      assert t == step.t && step.ReadFlag?;
      NoTokens(s);
    } else if step.Spawn? {
      assert forall t | In(s', t, Signalling) :: In(s, t, Signalling);
    } else {
      assert forall t | In(s', t, Signalling) :: In(s, t, Signalling);
      assert step.LoadInflight? && s.inflight == 0;
      NoTokens(s);
    }
  }

  lemma OneTopZero(s: State, step: Step, t: Ticket)
    requires Counted(s) && OneTop(s) && Enabled(s, step) && Do(s, step).tops <= 1
    requires In(Do(s, step), t, FlagRead) || In(Do(s, step), t, Signalling)
    ensures Do(s, step).inflight == 0
  {
    var s' := Do(s, step);
    if s.inflight == 0 {
      NoTokens(s);
    }
    if MovesOne(step) {
      OneMove(s, step);
      if t != step.t {
        assert In(s, t, FlagRead) || In(s, t, Signalling);
      }
    } else {
      assert In(s, t, FlagRead) || In(s, t, Signalling);
    }
  }

  lemma OneTopStep(s: State, step: Step)
    requires Counted(s) && ClosedSeen(s) && OneTop(s) && Enabled(s, step) && Do(s, step).tops <= 1
    ensures OneTop(Do(s, step))
  {
    var s' := Do(s, step);
    forall t | In(s', t, FlagRead) || In(s', t, Signalling) ensures s'.inflight == 0 {
      OneTopZero(s, step, t);
    }
    if Announcing(s) {
      OneTopQuiet(s, step);
    } else if Announcing(s') {
      OneTopAnnounces(s, step);
    }
  }

  // ---------------------------------------------------------------- every accepted task once

  predicate Waiting(s: State, t: Ticket) {
    In(s, t, Queued) || In(s, t, Picked)
  }

  predicate Executing(ph: Phase) {
    ph.Running? || ph.Spawning?
  }

  predicate Arriving(ph: Phase) {
    ph.Checking? || ph.CheckingFailed? || ph.Submitting?
  }

  /** An accepted task is waiting, or was started or skipped exactly once, and nothing else was;
      a started task has returned, once, unless it is executing. */
  predicate LogOf(s: State, t: Ticket) {
    && s.started[t] + s.skipped[t] == (if t in s.accepted && !Waiting(s, t) then 1 else 0)
    && (t in s.accepted ==> t in s.tickets && !Arriving(s.tickets[t]))
    && (t in s.tickets && Unfinished(s.tickets[t]) ==> t in s.accepted)
    && (t in s.tickets && Executing(s.tickets[t]) ==> s.started[t] == 1)
    && (t in s.results <==> s.started[t] == 1 && !(t in s.tickets && Executing(s.tickets[t])))
  }

  lemma TicketsOther(s: State, step: Step, t: Ticket)
    requires MovesOne(step) || step.Spawn? ==> t != step.t
    requires step.Spawn? ==> t != step.child
    ensures t in Tickets(s, step) <==> t in s.tickets
    ensures t in s.tickets ==> Tickets(s, step)[t] == s.tickets[t]
  {
  }

  lemma FieldsOther(s: State, step: Step, t: Ticket)
    requires MovesOne(step) || step.Spawn? ==> t != step.t
    ensures Fields(s, step).started[t] == s.started[t] && Fields(s, step).skipped[t] == s.skipped[t]
    ensures t in Fields(s, step).accepted <==> t in s.accepted
    ensures t in Fields(s, step).results <==> t in s.results
  {
    if !(step.Accept? || step.Begin? || step.Return?) {
      HistoryKept(s, step);
    }
  }

  /** Only accepting, beginning and returning write the history. */
  lemma HistoryKept(s: State, step: Step)
    requires !step.Accept? && !step.Begin? && !step.Return?
    ensures var s' := Fields(s, step);
            s'.started == s.started && s'.skipped == s.skipped && s'.accepted == s.accepted && s'.results == s.results
            && s'.firstErr == s.firstErr && s'.errs == s.errs
  {
  }

  /** A step leaves the log of other tickets alone. */
  lemma LogOther(s: State, step: Step, t: Ticket)
    requires LogOf(s, t) && Enabled(s, step)
    requires MovesOne(step) || step.Spawn? ==> t != step.t
    requires step.Spawn? ==> t != step.child
    ensures LogOf(Do(s, step), t)
  {
    TicketsOther(s, step, t);
    FieldsOther(s, step, t);
  }

  lemma LogOwn(s: State, step: Step)
    requires MovesOne(step) && LogOf(s, step.t) && Enabled(s, step)
    ensures LogOf(Do(s, step), step.t)
  {
    if step.Begin? || step.Return? || step.Accept? {
      LogOwnRecorded(s, step);
    } else {
      LogOwnSilent(s, step);
    }
  }

  lemma LogOwnRecorded(s: State, step: Step)
    requires (step.Begin? || step.Return? || step.Accept?) && LogOf(s, step.t) && Enabled(s, step)
    ensures LogOf(Do(s, step), step.t)
  {
    match step {
      case Begin(t) => LogOwnBegin(s, t);
      case Return(t, err) => LogOwnReturn(s, t, err);
      case Accept(t) => assert Do(s, step).tickets[t] == Queued;
    }
  }

  lemma LogOwnBegin(s: State, t: Ticket)
    requires LogOf(s, t) && Enabled(s, Begin(t))
    ensures LogOf(Do(s, Begin(t)), t)
  {
    assert Do(s, Begin(t)).tickets[t] == if s.firstErr.Some? then Releasing else Running;
  }

  lemma LogOwnReturn(s: State, t: Ticket, err: Option<Err>)
    requires LogOf(s, t) && Enabled(s, Return(t, err))
    ensures LogOf(Do(s, Return(t, err)), t)
  {
    var s' := Do(s, Return(t, err));
    assert s'.started == s.started && s'.skipped == s.skipped && s'.accepted == s.accepted && s'.results.Keys == s.results.Keys + {t};
  }

  lemma LogOwnSilent(s: State, step: Step)
    requires MovesOne(step) && LogOf(s, step.t) && Enabled(s, step) && !step.Begin? && !step.Return? && !step.Accept?
    ensures LogOf(Do(s, step), step.t)
  {
    HistoryKept(s, step);
    assert Do(s, step).tickets[step.t] == Target(s, step);
  }

  lemma LogStep(s: State, step: Step, t: Ticket)
    requires LogOf(s, t) && Enabled(s, step)
    ensures LogOf(Do(s, step), t)
  {
    if MovesOne(step) && t == step.t {
      LogOwn(s, step);
    } else if !(step.Spawn? && (t == step.t || t == step.child)) {
      LogOther(s, step, t);
    }
  }

  ghost predicate Logged(s: State) {
    forall t: Ticket :: LogOf(s, t)
  }

  // ---------------------------------------------------------------- errors

  function One(err: Option<Err>): multiset<Err> {
    if err.Some? then multiset{err.value} else multiset{}
  }

  /** The errors returned so far, with multiplicity. */
  ghost function ErrsOf(results: map<Ticket, Option<Err>>): multiset<Err> {
    if results == map[] then multiset{}
    else
      var t :| t in results;
      ErrsOf(results - {t}) + One(results[t])
  }

  lemma {:induction false} ErrsOfSome(results: map<Ticket, Option<Err>>) returns (t: Ticket)
    requires results != map[]
    ensures t in results && ErrsOf(results) == ErrsOf(results - {t}) + One(results[t])
  {
    t :| t in results && ErrsOf(results) == ErrsOf(results - {t}) + One(results[t]);
  }

  lemma {:induction false} ErrsOfRemove(results: map<Ticket, Option<Err>>, t: Ticket)
    requires t in results
    ensures ErrsOf(results) == ErrsOf(results - {t}) + One(results[t])
    decreases |results|
  {
    var u := ErrsOfSome(results);
    if u != t {
      var without, rest := results - {u}, results - {u} - {t};
      assert rest == results - {t} - {u} && |without| < |results| && |results - {t}| < |results|;
      assert without[t] == results[t] && (results - {t})[u] == results[u];
      ErrsOfRemove(without, t);
      ErrsOfRemove(results - {t}, u);
    }
  }

  lemma ErrsOfAdd(results: map<Ticket, Option<Err>>, t: Ticket, err: Option<Err>)
    requires t !in results
    ensures ErrsOf(results[t := err]) == ErrsOf(results) + One(err)
  {
    ErrsOfRemove(results[t := err], t);
    assert results[t := err] - {t} == results;
  }

  /** A tolerant pool has collected exactly the errors returned. */
  ghost predicate Collected(s: State) {
    s.mode.Tolerant? ==> s.errs == ErrsOf(s.results) && s.firstErr.None?
  }

  /** Only a pool that has recorded an error, one that a task returned, skips tasks. */
  ghost predicate FirstErrorOk(s: State) {
    && (s.skipped != multiset{} ==> s.firstErr.Some?)
    && (s.firstErr.Some? ==> exists t :: t in s.results && s.results[t] == s.firstErr)
  }

  lemma {:induction false} CollectedStep(s: State, step: Step)
    requires Collected(s) && Enabled(s, step)
    requires step.Return? ==> LogOf(s, step.t)
    ensures Collected(Do(s, step))
  {
    if step.Return? {
      CollectedReturn(s, step.t, step.err);
    }
  }

  lemma {:induction false} CollectedReturn(s: State, t: Ticket, err: Option<Err>)
    requires Collected(s) && Enabled(s, Return(t, err)) && LogOf(s, t)
    ensures Collected(Do(s, Return(t, err)))
  {
    assert t !in s.results;
    ErrsOfAdd(s.results, t, err);
    assert s.mode.Tolerant? ==> Fields(s, Return(t, err)).errs == s.errs + One(err);
  }

  lemma FirstErrorStep(s: State, step: Step)
    requires FirstErrorOk(s) && Enabled(s, step)
    requires step.Return? ==> LogOf(s, step.t)
    ensures FirstErrorOk(Do(s, step))
  {
    if step.Return? {
      FirstErrorReturn(s, step.t, step.err);
    } else if !step.Begin? && !step.Accept? {
      HistoryKept(s, step);
    }
  }

  lemma FirstErrorReturn(s: State, t: Ticket, err: Option<Err>)
    requires FirstErrorOk(s) && Enabled(s, Return(t, err)) && LogOf(s, t)
    ensures FirstErrorOk(Do(s, Return(t, err)))
  {
    var s' := Do(s, Return(t, err));
    assert s'.results == s.results[t := err] && s'.skipped == s.skipped && t !in s.results;
    if s.firstErr.Some? {
      var u :| u in s.results && s.results[u] == s.firstErr;
      assert u in s'.results && s'.results[u] == s'.firstErr;
    } else {
      assert s'.firstErr.Some? ==> s'.results[t] == s'.firstErr;
    }
  }

  // ---------------------------------------------------------------- all runs

  ghost predicate Inv(s: State) {
    Counted(s) && ClosedSeen(s) && WakeUp(s) && Logged(s) && Collected(s) && FirstErrorOk(s)
  }

  lemma InvStep(s: State, step: Step)
    requires Inv(s) && Enabled(s, step)
    ensures Inv(Do(s, step))
  {
    CountedStep(s, step);
    ClosedSeenStep(s, step);
    WakeUpStep(s, step);
    forall t: Ticket ensures LogOf(Do(s, step), t) {
      LogStep(s, step, t);
    }
    CollectedStep(s, step);
    FirstErrorStep(s, step);
  }

  lemma InitInv(mode: Mode)
    ensures Inv(Init(mode)) && OneTop(Init(mode))
  {
    assert Tokens(Init(mode).tickets) == {};
  }

  lemma Unchanging(s: State, step: Step)
    requires Enabled(s, step)
    ensures Do(s, step).mode == s.mode && s.tops <= Do(s, step).tops
  {
  }

  lemma {:induction false} RunKeepsInv(mode: Mode, steps: seq<Step>, s: State)
    requires Reached(mode, steps, s)
    ensures Inv(s) && s.mode == mode
    ensures s.tops <= 1 ==> OneTop(s)
  {
    if steps == [] {
      InitInv(mode);
    } else {
      var front, step := steps[..|steps| - 1], steps[|steps| - 1];
      var m := Execute(Init(mode), front).value;
      RunKeepsInv(mode, front, m);
      InvStep(m, step);
      Unchanging(m, step);
      if s.tops <= 1 {
        OneTopStep(m, step);
      }
    }
  }

  /** No lost wake-up: in every reachable state of any number of submitters and closers, if the
      pool is closed, nothing is in flight and no thread is between its counter step and its
      signal, then done is closed. */
  lemma NoLostWakeUp(mode: Mode, steps: seq<Step>, s: State)
    requires Reached(mode, steps, s)
    requires s.closed && s.inflight == 0 && !Waking(s)
    ensures s.done
  {
    RunKeepsInv(mode, steps, s);
  }

  /** Drain safety, with at most one top-level submission: whenever done is closed no accepted
      task is queued or running, every accepted task was started or skipped exactly once, and a
      tolerant pool ran them all and reports exactly the multiset of errors they returned. */
  lemma DrainSafety(mode: Mode, steps: seq<Step>, s: State)
    requires Reached(mode, steps, s) && s.tops <= 1 && s.done
    ensures Drained(s)
    ensures s.started + s.skipped == multiset(s.accepted)
    ensures mode.Tolerant? ==> s.results.Keys == s.accepted && s.errs == ErrsOf(s.results)
    ensures s.firstErr.None? ==> s.skipped == multiset{}
  {
    RunKeepsInv(mode, steps, s);
    assert AllQuiet(s);
    forall t: Ticket ensures (s.started + s.skipped)[t] == multiset(s.accepted)[t] {
      assert LogOf(s, t);
    }
    if mode.Tolerant? {
      forall t: Ticket ensures t in s.results <==> t in s.accepted {
        assert LogOf(s, t);
        assert s.skipped[t] == 0;
      }
    }
  }

  // ---------------------------------------------------------------- what an error stops

  /** The first error a task of the run returned. */
  function FirstFailure(steps: seq<Step>): Option<Err> {
    if steps == [] then None
    else
      var earlier := FirstFailure(steps[..|steps| - 1]);
      if earlier.Some? then earlier
      else match steps[|steps| - 1]
        case Return(_, err) => err
        case _ => None
  }

  /** The error that is recorded after the run: in a fail-fast pool the first one, and it stays. */
  function Failure(mode: Mode, steps: seq<Step>): Option<Err> {
    if mode.FailFast? then FirstFailure(steps) else None
  }

  lemma {:induction false} FailureStep(s: State, step: Step)
    requires Enabled(s, step)
    ensures Do(s, step).firstErr ==
            if s.firstErr.None? && s.mode.FailFast? && step.Return? then step.err else s.firstErr
  {
    if !step.Accept? && !step.Begin? && !step.Return? {
      HistoryKept(s, step);
    }
  }

  lemma {:induction false} FirstErrorIsFirst(mode: Mode, steps: seq<Step>, s: State)
    requires Reached(mode, steps, s)
    ensures s.firstErr == Failure(mode, steps)
    decreases |steps|
  {
    if steps != [] {
      var front := steps[..|steps| - 1];
      var m := Execute(Init(mode), front).value;
      FirstErrorIsFirst(mode, front, m);
      RunKeepsInv(mode, front, m);
      FailureStep(m, steps[|steps| - 1]);
    }
  }

  /** A task is started by a worker that finds no error recorded, and skipped by one that does. */
  predicate BeginsAt(mode: Mode, steps: seq<Step>, i: nat, t: Ticket, skips: bool) {
    i < |steps| && steps[i] == Begin(t) && Failure(mode, steps[..i]).Some? == skips
  }

  lemma {:induction false} HistoryStep(s: State, step: Step, t: Ticket)
    requires Enabled(s, step)
    ensures t in Do(s, step).started <==> t in s.started || (step == Begin(t) && s.firstErr.None?)
    ensures t in Do(s, step).skipped <==> t in s.skipped || (step == Begin(t) && s.firstErr.Some?)
  {
    if !step.Accept? && !step.Begin? && !step.Return? {
      HistoryKept(s, step);
    }
  }

  /** Exactly the tasks that begin before the first error are started; those that begin after it
      are skipped. */
  lemma {:induction false} StartedExactly(mode: Mode, steps: seq<Step>, s: State, t: Ticket)
    requires Reached(mode, steps, s)
    ensures t in s.started <==> exists i: nat :: BeginsAt(mode, steps, i, t, false)
    ensures t in s.skipped <==> exists i: nat :: BeginsAt(mode, steps, i, t, true)
    decreases |steps|
  {
    if steps != [] {
      var n := |steps| - 1;
      var front, step := steps[..n], steps[n];
      var m := Execute(Init(mode), front).value;
      StartedExactly(mode, front, m, t);
      FirstErrorIsFirst(mode, front, m);
      HistoryStep(m, step, t);
      BeginsLater(mode, steps, t, false);
      BeginsLater(mode, steps, t, true);
    }
  }

  lemma {:induction false} BeginsLater(mode: Mode, steps: seq<Step>, t: Ticket, skips: bool)
    requires steps != []
    ensures var n := |steps| - 1;
            (exists i: nat :: BeginsAt(mode, steps, i, t, skips)) <==>
            (exists i: nat :: BeginsAt(mode, steps[..n], i, t, skips)) || (steps[n] == Begin(t) && Failure(mode, steps[..n]).Some? == skips)
  {
    var n := |steps| - 1;
    if i: nat :| BeginsAt(mode, steps, i, t, skips) {
      if i < n {
        assert steps[..n][..i] == steps[..i];
        assert BeginsAt(mode, steps[..n], i, t, skips);
      }
    }
    if i: nat :| BeginsAt(mode, steps[..n], i, t, skips) {
      assert steps[..n][..i] == steps[..i];
      assert BeginsAt(mode, steps, i, t, skips);
    }
    if steps[n] == Begin(t) && Failure(mode, steps[..n]).Some? == skips {
      assert BeginsAt(mode, steps, n, t, skips);
    }
  }

  /** Once an error is recorded it stays the one, and no task is started any more. */
  lemma {:induction false} ErrorStopsAll(mode: Mode, steps: seq<Step>, n: nat, s: State, later: State)
    requires n <= |steps| && Reached(mode, steps[..n], s) && Reached(mode, steps, later) && s.firstErr.Some?
    ensures later.firstErr == s.firstErr && later.started == s.started
    decreases |steps|
  {
    if n == |steps| {
      assert steps[..n] == steps;
    } else {
      var front, step := steps[..|steps| - 1], steps[|steps| - 1];
      assert front[..n] == steps[..n];
      var m := Execute(Init(mode), front).value;
      ErrorStopsAll(mode, front, n, s, m);
      FailureStep(m, step);
      StartedKept(m, step);
    }
  }

  lemma {:induction false} StartedKept(s: State, step: Step)
    requires Enabled(s, step) && s.firstErr.Some?
    ensures Do(s, step).started == s.started
  {
    if !step.Accept? && !step.Begin? && !step.Return? {
      HistoryKept(s, step);
    }
  }

  // ---------------------------------------------------------------- an error closes the pool

  /** The error is recorded, and the task that recorded it is about to close the pool, or has. */
  ghost predicate Closes(s: State) {
    s.firstErr.Some? ==> s.closed || exists t :: In(s, t, Recorded)
  }

  lemma {:induction false} ClosesStep(s: State, step: Step)
    requires Enabled(s, step) && Closes(s) && (s.firstErr.Some? ==> s.mode.FailFast?)
    ensures Closes(Do(s, step))
  {
    FailureStep(s, step);
    if s.closed {
      ClosedKept(s, step);
    } else if s.firstErr.Some? {
      var t :| In(s, t, Recorded);
      RecordedStep(s, step, t);
    } else if step.Return? && Do(s, step).firstErr.Some? {
      assert In(Do(s, step), step.t, Recorded);
    }
  }

  lemma {:induction false} RecordedStep(s: State, step: Step, t: Ticket)
    requires Enabled(s, step) && In(s, t, Recorded)
    ensures In(Do(s, step), t, Recorded) || Do(s, step).closed
  {
    if step != StoreClosed(t) {
      TicketsOther(s, step, t);
    }
  }

  /** Fail-fast: once an error is recorded the pool is closed, or the task that failed is about to
      close it. */
  lemma {:induction false} ErrorCloses(mode: Mode, steps: seq<Step>, s: State)
    requires Reached(mode, steps, s)
    ensures Closes(s)
    decreases |steps|
  {
    if steps != [] {
      var m := LastStep(mode, steps, s);
      ErrorCloses(mode, steps[..|steps| - 1], m);
      RunKeepsInv(mode, steps[..|steps| - 1], m);
      ClosesStep(m, steps[|steps| - 1]);
    }
  }

  lemma {:induction false} NoNewSpawning(s: State, step: Step, t: Ticket)
    requires Enabled(s, step) && s.firstErr.Some? && In(Do(s, step), t, Spawning)
    ensures In(s, t, Spawning)
  {
    if !(MovesOne(step) && step.t == t) && !step.Spawn? {
      TicketsOther(s, step, t);
    }
  }

  /** Once an error is recorded no task gets ready to submit another: who does so later was about to
      when the error was recorded. */
  lemma {:induction false} ErrorStopsNesting(mode: Mode, steps: seq<Step>, n: nat, s: State, later: State, t: Ticket)
    requires n <= |steps| && Reached(mode, steps[..n], s) && Reached(mode, steps, later) && s.firstErr.Some? && In(later, t, Spawning)
    ensures In(s, t, Spawning)
    decreases |steps|
  {
    if n == |steps| {
      assert steps[..n] == steps;
    } else {
      var k := |steps| - 1;
      var m := LastStep(mode, steps, later);
      assert steps[..k][..n] == steps[..n];
      ErrorStopsAll(mode, steps[..k], n, s, m);
      NoNewSpawning(m, steps[k], t);
      ErrorStopsNesting(mode, steps[..k], n, s, m, t);
    }
  }

  // ---------------------------------------------------------------- late submissions

  /** A submission that has not passed its checks, or was turned away. */
  predicate TurnedAway(s: State, t: Ticket) {
    && t !in s.accepted
    && (t in s.tickets ==>
          || s.tickets[t].Checking? || (s.tickets[t].CheckingFailed? && s.firstErr.Some?)
          || s.tickets[t].Releasing? || s.tickets[t].FlagRead? || s.tickets[t].Signalling? || s.tickets[t].Gone?)
  }

  lemma {:induction false} StaysTurnedAway(s: State, step: Step, t: Ticket)
    requires Enabled(s, step) && (s.closed || s.firstErr.Some?) && TurnedAway(s, t)
    requires t !in s.tickets ==> !(step.Spawn? && step.child == t)
    ensures TurnedAway(Do(s, step), t)
  {
    FailureStep(s, step);
    if MovesOne(step) && step.t == t {
      assert Do(s, step).tickets[t] == Target(s, step);
      if !step.Accept? && !step.Begin? && !step.Return? {
        HistoryKept(s, step);
      }
    } else if step.Spawn? {
      HistoryKept(s, step);
    } else {
      TicketsOther(s, step, t);
      FieldsOther(s, step, t);
    }
  }

  lemma {:induction false} StaysClosed(s: State, step: Step)
    requires Enabled(s, step) && (s.closed || s.firstErr.Some?)
    ensures Do(s, step).closed || Do(s, step).firstErr.Some?
  {
    FailureStep(s, step);
    if !s.firstErr.Some? {
      ClosedKept(s, step);
    }
  }

  lemma {:induction false} ClosedKept(s: State, step: Step)
    requires s.closed
    ensures Fields(s, step).closed
  {
  }

  lemma {:induction false} TicketStays(s: State, step: Step, t: Ticket)
    requires Enabled(s, step) && t in s.tickets
    ensures t in Do(s, step).tickets
  {
  }

  /** A submission that came too late. */
  predicate TooLate(s: State, t: Ticket) {
    t in s.tickets && TurnedAway(s, t) && (s.closed || s.firstErr.Some?)
  }

  lemma {:induction false} StaysTooLate(s: State, step: Step, t: Ticket)
    requires Enabled(s, step) && TooLate(s, t)
    ensures TooLate(Do(s, step), t)
  {
    TicketStays(s, step, t);
    StaysTurnedAway(s, step, t);
    StaysClosed(s, step);
  }

  lemma {:induction false} StartsTooLate(s: State, t: Ticket)
    requires Enabled(s, StartTop(t)) && (s.closed || s.firstErr.Some?) && TurnedAway(s, t)
    ensures TooLate(Do(s, StartTop(t)), t)
  {
    StaysTurnedAway(s, StartTop(t), t);
    StaysClosed(s, StartTop(t));
  }

  /** A submission from outside that starts after the pool was closed or an error recorded is never
      accepted. */
  lemma {:induction false} LateIsTurnedAway(mode: Mode, steps: seq<Step>, n: nat, s: State, later: State, t: Ticket)
    requires n < |steps| && Reached(mode, steps[..n], s) && Reached(mode, steps, later)
    requires (s.closed || s.firstErr.Some?) && steps[n] == StartTop(t)
    ensures TooLate(later, t) && t !in later.accepted
    decreases |steps|
  {
    var k := |steps| - 1;
    var m := LastStep(mode, steps, later);
    if n < k {
      assert steps[..k][..n] == steps[..n];
      LateIsTurnedAway(mode, steps[..k], n, s, m, t);
      StaysTooLate(m, steps[k], t);
    } else {
      NotYetThere(mode, steps[..k], m, t);
      StartsTooLate(m, t);
    }
  }

  lemma {:induction false} LastStep(mode: Mode, steps: seq<Step>, s: State) returns (m: State)
    requires Reached(mode, steps, s) && steps != []
    ensures Reached(mode, steps[..|steps| - 1], m) && Enabled(m, steps[|steps| - 1]) && s == Do(m, steps[|steps| - 1])
  {
    m := Execute(Init(mode), steps[..|steps| - 1]).value;
  }

  lemma {:induction false} NotYetThere(mode: Mode, steps: seq<Step>, s: State, t: Ticket)
    requires Reached(mode, steps, s) && t !in s.tickets
    ensures TurnedAway(s, t)
  {
    RunKeepsInv(mode, steps, s);
    assert LogOf(s, t);
  }

  /** So in a drained fail-fast pool every accepted task had been started when the error was
      recorded, once, or was skipped, once. */
  lemma {:induction false} DrainedAfterError(steps: seq<Step>, n: nat, s: State, later: State, t: Ticket)
    requires n <= |steps| && Reached(FailFast, steps[..n], s) && Reached(FailFast, steps, later)
    requires s.firstErr.Some? && later.tops <= 1 && later.done && t in later.accepted
    ensures if t in s.started then s.started[t] == 1 && later.skipped[t] == 0 else later.skipped[t] == 1
  {
    ErrorStopsAll(FailFast, steps, n, s, later);
    DrainSafety(FailFast, steps, later);
    assert (later.started + later.skipped)[t] == multiset(later.accepted)[t] == 1;
  }

  /** A closed pool that has not announced completion always has a step of its own to take. */
  lemma ClosedPoolProgresses(mode: Mode, steps: seq<Step>, s: State)
    requires Reached(mode, steps, s) && s.closed && !s.done
    ensures exists step :: Enabled(s, step) && !step.StartTop? && !step.Close?
  {
    RunKeepsInv(mode, steps, s);
    if s.inflight > 0 {
      assert Tokens(s.tickets) != {};
      var t :| t in Tokens(s.tickets);
      var step := match s.tickets[t]
        case Checking => ReadClosed(t)
        case CheckingFailed => ReadFailed(t)
        case Submitting => Refuse(t)
        case Queued => Pick(t)
        case Picked => Begin(t)
        case Running => Return(t, None)
        case Spawning => Spawn(t, FreshTicket(s))
        case Recorded => StoreClosed(t)
        case _ => Decrement(t);
      assert Enabled(s, step);
    } else if exists t :: PendingTicket(s, t) {
      var t :| PendingTicket(s, t);
      assert Enabled(s, if s.tickets[t].FlagRead? then ReadFlag(t) else Signal(t));
    } else {
      var c :| PendingCloser(s, c);
      assert Enabled(s, if s.closers[c].Loading? then LoadInflight(c) else CloserSignal(c));
    }
  }

  lemma {:induction false} Bounded(ts: set<Ticket>) returns (n: Ticket)
    ensures forall t | t in ts :: t < n
  {
    if ts == {} {
      n := 0;
    } else {
      var t :| t in ts;
      var m := Bounded(ts - {t});
      n := if m > t then m else t + 1;
      assert forall u | u in ts :: u == t || u in ts - {t};
    }
  }

  lemma FreshExists(ts: set<Ticket>)
    ensures exists n: Ticket :: n !in ts
  {
    var n := Bounded(ts);
    assert n !in ts;
  }

  ghost function FreshTicket(s: State): (n: Ticket)
    ensures n !in s.tickets
  {
    FreshExists(s.tickets.Keys);
    var n: Ticket :| n !in s.tickets.Keys;
    n
  }

  // ---------------------------------------------------------------- the race of two top-level submissions

  lemma Extend(mode: Mode, steps: seq<Step>, s: State, step: Step)
    requires Reached(mode, steps, s) && Enabled(s, step)
    ensures Reached(mode, steps + [step], Do(s, step))
  {
    assert (steps + [step])[..|steps|] == steps;
  }

  lemma FirstQueued(mode: Mode) returns (steps: seq<Step>, s: State)
    ensures Reached(mode, steps, s)
    ensures s.tickets == map[1 := Queued] && s.inflight == 1 && !s.closed && s.firstErr.None? && s.tops == 1
    ensures s.closers == map[] && !s.done
  {
    steps, s := [], Init(mode);
    steps, s := Advance(mode, steps, s, StartTop(1));
    steps, s := Advance(mode, steps, s, ReadClosed(1));
    steps, s := Advance(mode, steps, s, ReadFailed(1));
    steps, s := Advance(mode, steps, s, Accept(1));
  }

  /** One task runs to the end and its worker stops between counter and flag. */
  lemma FirstDrains(mode: Mode) returns (steps: seq<Step>, s: State)
    ensures Reached(mode, steps, s)
    ensures s.tickets == map[1 := FlagRead] && s.inflight == 0 && !s.closed && s.firstErr.None? && s.tops == 1
    ensures s.closers == map[] && !s.done
  {
    steps, s := FirstQueued(mode);
    steps, s := Advance(mode, steps, s, Pick(1));
    steps, s := Advance(mode, steps, s, Begin(1));
    steps, s := Advance(mode, steps, s, Return(1, None));
    steps, s := Advance(mode, steps, s, Decrement(1));
  }

  lemma Advance(mode: Mode, steps: seq<Step>, s: State, step: Step) returns (steps': seq<Step>, s': State)
    requires Reached(mode, steps, s) && Enabled(s, step)
    ensures Reached(mode, steps', s') && s' == Do(s, step)
  {
    Extend(mode, steps, s, step);
    steps', s' := steps + [step], Do(s, step);
  }

  /** A second top-level submission slips in, the pool is closed, and the stopped worker
      announces completion while the second task is still queued. */
  lemma SecondIsLost(mode: Mode) returns (steps: seq<Step>, s: State)
    ensures Reached(mode, steps, s) && s.tops == 2 && s.done && In(s, 2, Queued)
  {
    steps, s := SecondQueued(mode);
    steps, s := Advance(mode, steps, s, Close(0));
    steps, s := Advance(mode, steps, s, ReadFlag(1));
    steps, s := Advance(mode, steps, s, Signal(1));
  }

  lemma SecondQueued(mode: Mode) returns (steps: seq<Step>, s: State)
    ensures Reached(mode, steps, s)
    ensures s.tickets == map[1 := FlagRead, 2 := Queued] && !s.closed && s.tops == 2 && s.closers == map[]
  {
    steps, s := FirstDrains(mode);
    steps, s := Advance(mode, steps, s, StartTop(2));
    steps, s := Advance(mode, steps, s, ReadClosed(2));
    steps, s := Advance(mode, steps, s, ReadFailed(2));
    steps, s := Advance(mode, steps, s, Accept(2));
  }

  ghost predicate DrainSafeFor(mode: Mode, limit: nat) {
    forall steps, s | Reached(mode, steps, s) && s.tops <= limit :: Drained(s)
  }

  /** Waiting for done is safe in every interleaving if and only if the caller submits at most
      one top-level task; nested submissions are unrestricted. */
  lemma DrainSafeExactly(mode: Mode, limit: nat)
    ensures DrainSafeFor(mode, limit) <==> limit <= 1
  {
    if limit <= 1 {
      forall steps, s | Reached(mode, steps, s) && s.tops <= limit ensures Drained(s) {
        if s.done {
          DrainSafety(mode, steps, s);
        }
      }
    } else {
      var steps, s := SecondIsLost(mode);
      assert !Drained(s);
    }
  }
}
