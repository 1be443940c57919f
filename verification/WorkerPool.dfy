/** The shared worker pool (pkg/pool/pool.go) over the queue of pkg/pool/queue.go, as
    interleaved atomic steps of submitters, workers, closers and the monitor. The queue's locked
    sections are single steps; its size counter is decremented after the lock is released. The
    load that follows an increment is left out: the submission counts itself, so it cannot see
    zero. The early return on a cancelled context only removes submissions. */
module WorkerPool {
  import opened Base

  datatype Ticket = Ticket(id: nat)

  datatype Phase =
    | Putting                 // counted; about to call Put
    | Queued
    | Popped                  // off the queue; size not yet decremented
    | Handling
    | Releasing(failed: bool) // about to decrement the in-flight counter
    | Loading(failed: bool)   // about to read the counter
    | Broadcasting(failed: bool) // saw zero; about to take the lock and wake the monitor
    | ForceClosing            // failed handler; about to close the queue
    | Free

  datatype Worker = Idle | Busy(t: Ticket) | Exited

  datatype Monitor = Top | LoadInflight | LoadLen | WaitOuter | WaitInner | Closing | Forcing | Finished

  datatype State = State(
    queue: seq<Ticket>, qclosed: bool, size: int, inflight: int, closedForSubmit: bool, failed: bool,
    tickets: map<Ticket, Phase>, workers: map<nat, Worker>, closers: map<nat, bool>, monitor: Monitor,
    // history
    accepted: set<Ticket>, handled: multiset<Ticket>, refused: set<Ticket>, late: bool)

  function Init(ws: set<nat>): State {
    State([], false, 0, 0, false, false, map[], map w | w in ws :: Idle, map[], Top, {}, multiset{}, {}, false)
  }

  datatype Step =
    | Submit(t: Ticket)
    | Spawn(t: Ticket, parent: Ticket)
    | Put(t: Ticket)
    | Pop(t: Ticket, w: nat)
    | SizeDown(t: Ticket)
    | Finish(t: Ticket, err: bool)
    | Release(t: Ticket)
    | Load(t: Ticket)
    | Broadcast(t: Ticket)
    | ForceClose(t: Ticket)
    | Back(w: nat)
    | Exit(w: nat)
    | CloseForSubmit(c: nat)
    | CloserBroadcast(c: nat)
    | MonCheck
    | MonLoadInflight
    | MonLoadLen
    | MonClose
    | MonForce

  predicate In(s: State, t: Ticket, ph: Phase) {
    t in s.tickets && s.tickets[t] == ph
  }

  /** The monitor holds the lock except while it waits or after it left. */
  predicate LockFree(s: State) {
    s.monitor.WaitOuter? || s.monitor.WaitInner? || s.monitor.Forcing? || s.monitor.Finished?
  }

  predicate Enabled(s: State, step: Step) {
    match step
    case Submit(t) => t !in s.tickets
    case Spawn(t, parent) => t !in s.tickets && In(s, parent, Handling)
    case Put(t) => In(s, t, Putting)
    case Pop(t, w) => w in s.workers && s.workers[w].Idle? && s.queue != [] && t == s.queue[0]
    case SizeDown(t) => In(s, t, Popped)
    case Finish(t, _) => In(s, t, Handling)
    case Release(t) => t in s.tickets && s.tickets[t].Releasing?
    case Load(t) => t in s.tickets && s.tickets[t].Loading?
    case Broadcast(t) => t in s.tickets && s.tickets[t].Broadcasting? && LockFree(s)
    case ForceClose(t) => In(s, t, ForceClosing)
    case Back(w) => w in s.workers && s.workers[w].Busy? && In(s, s.workers[w].t, Free)
    case Exit(w) => w in s.workers && s.workers[w].Idle? && s.queue == [] && s.qclosed
    case CloseForSubmit(c) => c !in s.closers
    case CloserBroadcast(c) => c in s.closers && s.closers[c] && LockFree(s)
    case MonCheck => s.monitor.Top?
    case MonLoadInflight => s.monitor.LoadInflight?
    case MonLoadLen => s.monitor.LoadLen?
    case MonClose => s.monitor.Closing?
    case MonForce => s.monitor.Forcing?
  }

  predicate MovesTicket(step: Step) {
    step.Submit? || step.Spawn? || step.Put? || step.Pop? || step.SizeDown? || step.Finish? || step.Release? ||
    step.Load? || step.Broadcast? || step.ForceClose?
  }

  function After(failed: bool): Phase {
    if failed then ForceClosing else Free
  }

  function Target(s: State, step: Step): Phase
    requires MovesTicket(step) && Enabled(s, step)
  {
    match step
    case Submit(t) => Putting
    case Spawn(t, _) => Putting
    case Put(t) => if s.qclosed then Releasing(false) else Queued
    case Pop(t, w) => Popped
    case SizeDown(t) => Handling
    case Finish(t, err) => Releasing(err)
    case Release(t) => Loading(s.tickets[t].failed)
    case Load(t) => if s.inflight == 0 then Broadcasting(s.tickets[t].failed) else After(s.tickets[t].failed)
    case Broadcast(t) => After(s.tickets[t].failed)
    case ForceClose(t) => Free
  }

  function Tickets(s: State, step: Step): map<Ticket, Phase>
    requires Enabled(s, step)
  {
    if MovesTicket(step) then s.tickets[step.t := Target(s, step)] else s.tickets
  }

  function Wake(m: Monitor): Monitor {
    match m
    case WaitOuter => Top
    case WaitInner => LoadInflight
    case _ => m
  }

  function Mon(s: State, step: Step): Monitor {
    match step
    case Broadcast(_) => Wake(s.monitor)
    case CloserBroadcast(_) => Wake(s.monitor)
    case MonCheck => if s.closedForSubmit then LoadInflight else if s.failed then Forcing else WaitOuter
    case MonLoadInflight => if s.inflight != 0 then WaitInner else LoadLen
    case MonLoadLen => if s.size != 0 then WaitInner else Closing
    case MonClose => Finished
    case MonForce => Finished
    case _ => s.monitor
  }

  function Fields(s: State, step: Step): State
    requires Enabled(s, step)
  {
    match step
    case Submit(t) => s.(inflight := s.inflight + 1, late := s.late || s.closedForSubmit)
    case Spawn(t, _) => s.(inflight := s.inflight + 1)
    case Put(t) =>
      if s.qclosed then s.(refused := s.refused + {t})
      else s.(queue := s.queue + [t], size := s.size + 1, accepted := s.accepted + {t})
    case Pop(t, w) => s.(queue := s.queue[1..], workers := s.workers[w := Busy(t)])
    case SizeDown(t) => s.(size := s.size - 1)
    case Finish(t, err) => s.(handled := s.handled + multiset{t}, failed := s.failed || err)
    case Release(t) => s.(inflight := s.inflight - 1)
    case ForceClose(t) => s.(qclosed := true)
    case Back(w) => s.(workers := s.workers[w := Idle])
    case Exit(w) => s.(workers := s.workers[w := Exited])
    case CloseForSubmit(c) => s.(closedForSubmit := true, closers := s.closers[c := true])
    case CloserBroadcast(c) => s.(closers := s.closers[c := false])
    case MonClose => s.(qclosed := true)
    case MonForce => s.(qclosed := true)
    case _ => s
  }

  function Do(s: State, step: Step): State
    requires Enabled(s, step)
  {
    Fields(s, step).(tickets := Tickets(s, step), monitor := Mon(s, step))
  }

  function Execute(s: State, steps: seq<Step>): Option<State> {
    if steps == [] then Some(s)
    else
      match Execute(s, steps[..|steps| - 1])
      case None => None
      case Some(m) => if Enabled(m, steps[|steps| - 1]) then Some(Do(m, steps[|steps| - 1])) else None
  }

  predicate Reached(ws: set<nat>, steps: seq<Step>, s: State) {
    Execute(Init(ws), steps) == Some(s)
  }

  // ---------------------------------------------------------------- counting tickets by phase

  predicate HoldsToken(ph: Phase) {
    ph.Putting? || ph.Queued? || ph.Popped? || ph.Handling? || ph.Releasing?
  }

  /** Queued, or popped with the size counter still counting it. */
  predicate Sized(ph: Phase) {
    ph.Queued? || ph.Popped?
  }

  function Tokens(tickets: map<Ticket, Phase>): set<Ticket> {
    set t | t in tickets && HoldsToken(tickets[t])
  }

  function SizedOnes(tickets: map<Ticket, Phase>): set<Ticket> {
    set t | t in tickets && Sized(tickets[t])
  }

  function B(b: bool): nat {
    if b then 1 else 0
  }

  lemma TokenMove(tickets: map<Ticket, Phase>, t: Ticket, ph: Phase)
    ensures |Tokens(tickets[t := ph])| == |Tokens(tickets)| - B(t in Tokens(tickets)) + B(HoldsToken(ph))
  {
    if HoldsToken(ph) {
      assert Tokens(tickets[t := ph]) == Tokens(tickets) + {t};
    } else {
      assert Tokens(tickets[t := ph]) == Tokens(tickets) - {t};
    }
  }

  lemma SizedMove(tickets: map<Ticket, Phase>, t: Ticket, ph: Phase)
    ensures |SizedOnes(tickets[t := ph])| == |SizedOnes(tickets)| - B(t in SizedOnes(tickets)) + B(Sized(ph))
  {
    if Sized(ph) {
      assert SizedOnes(tickets[t := ph]) == SizedOnes(tickets) + {t};
    } else {
      assert SizedOnes(tickets[t := ph]) == SizedOnes(tickets) - {t};
    }
  }

  /** Both counters count tickets: in flight all unreleased ones, size the queued and popped. */
  predicate Counted(s: State) {
    s.inflight == |Tokens(s.tickets)| && s.size == |SizedOnes(s.tickets)|
  }

  /** The queue holds exactly the queued tickets, each once. */
  predicate QueueOk(s: State) {
    && (forall i | 0 <= i < |s.queue| :: In(s, s.queue[i], Queued))
    && (forall i, j | 0 <= i < j < |s.queue| :: s.queue[i] != s.queue[j])
    && (forall t | t in s.tickets && s.tickets[t].Queued? :: t in s.queue)
  }

  lemma CountedStep(s: State, step: Step)
    requires Counted(s) && QueueOk(s) && Enabled(s, step)
    ensures Counted(Do(s, step))
  {
    if MovesTicket(step) {
      if step.Pop? {
        assert In(s, s.queue[0], Queued);
      }
      TokenMove(s.tickets, step.t, Target(s, step));
      SizedMove(s.tickets, step.t, Target(s, step));
    }
  }

  lemma QueueStep(s: State, step: Step)
    requires QueueOk(s) && Enabled(s, step)
    ensures QueueOk(Do(s, step))
  {
    match step {
      case Pop(t, w) => QueuePop(s, t, w);
      case Put(t) => QueuePut(s, t);
      case _ => QueueSame(s, step);
    }
  }

  lemma QueuePop(s: State, t: Ticket, w: nat)
    requires QueueOk(s) && Enabled(s, Pop(t, w))
    ensures QueueOk(Do(s, Pop(t, w)))
  {
    var s' := Do(s, Pop(t, w));
    assert forall i | 0 <= i < |s'.queue| :: s'.queue[i] == s.queue[i + 1];
    assert In(s, s.queue[0], Queued);
    forall u | u in s'.tickets && s'.tickets[u].Queued? ensures u in s'.queue {
      assert u in s.queue;
    }
  }

  lemma QueuePut(s: State, t: Ticket)
    requires QueueOk(s) && Enabled(s, Put(t))
    ensures QueueOk(Do(s, Put(t)))
  {
    assert !s.tickets[t].Queued?;
    assert t !in s.queue;
    var s' := Do(s, Put(t));
    assert s'.queue == if s.qclosed then s.queue else s.queue + [t];
    assert s'.tickets == s.tickets[t := if s.qclosed then Releasing(false) else Queued];
    QueueAppended(s, s', t);
  }

  lemma QueueAppended(s: State, s': State, t: Ticket)
    requires QueueOk(s) && t !in s.queue && (t in s.tickets ==> !s.tickets[t].Queued?)
    requires s'.queue == (if s.qclosed then s.queue else s.queue + [t])
    requires s'.tickets == s.tickets[t := if s.qclosed then Releasing(false) else Queued]
    ensures QueueOk(s')
  {
  }

  lemma QueueSame(s: State, step: Step)
    requires QueueOk(s) && Enabled(s, step) && !step.Pop? && !step.Put?
    ensures QueueOk(Do(s, step))
  {
    assert Do(s, step).queue == s.queue;
    if MovesTicket(step) {
      assert step.t in s.tickets ==> !s.tickets[step.t].Queued?;
      assert step.t !in s.queue;
      assert !Target(s, step).Queued?;
    }
  }

  /** Len never under-reports the queue. */
  lemma LenBoundsQueue(s: State)
    requires Counted(s) && QueueOk(s)
    ensures s.size >= |s.queue|
    ensures s.inflight == 0 ==> s.size == 0
  {
    QueueDistinct(s.queue);
    var members := set t | t in s.queue;
    assert members <= SizedOnes(s.tickets);
    CardinalityLe(members, SizedOnes(s.tickets));
    assert SizedOnes(s.tickets) <= Tokens(s.tickets);
    CardinalityLe(SizedOnes(s.tickets), Tokens(s.tickets));
  }

  lemma {:induction false} QueueDistinct(q: seq<Ticket>)
    requires forall i, j | 0 <= i < j < |q| :: q[i] != q[j]
    ensures |set t | t in q| == |q|
  {
    if q != [] {
      QueueDistinct(q[1..]);
      assert (set t | t in q) == (set t | t in q[1..]) + {q[0]};
    }
  }

  lemma {:induction false} CardinalityLe(a: set<Ticket>, b: set<Ticket>)
    requires a <= b
    ensures |a| <= |b|
    decreases a
  {
    if a != {} {
      var x :| x in a;
      CardinalityLe(a - {x}, b - {x});
    }
  }

  // ---------------------------------------------------------------- workers

  /** From the pop to the last step of its completion a ticket is in one worker's hands. */
  predicate InHand(ph: Phase) {
    ph.Popped? || ph.Handling?
  }

  ghost predicate WorkersOk(s: State) {
    && (forall w | w in s.workers && s.workers[w].Busy? ::
          s.workers[w].t in s.tickets && !s.tickets[s.workers[w].t].Putting? && !s.tickets[s.workers[w].t].Queued?)
    && (forall t | t in s.tickets && InHand(s.tickets[t]) :: exists w :: w in s.workers && s.workers[w] == Busy(t))
    && (forall w | w in s.workers && s.workers[w].Exited? :: s.qclosed && s.queue == [])
  }

  lemma BusyStep(s: State, step: Step, w: nat)
    requires QueueOk(s) && WorkersOk(s) && Enabled(s, step)
    requires w in Do(s, step).workers && Do(s, step).workers[w].Busy?
    ensures var s' := Do(s, step);
            s'.workers[w].t in s'.tickets && !s'.tickets[s'.workers[w].t].Putting? && !s'.tickets[s'.workers[w].t].Queued?
  {
    if !(step.Pop? && step.w == w) {
      assert w in s.workers && s.workers[w].Busy?;
    }
  }

  lemma InHandStep(s: State, step: Step, t: Ticket)
    requires QueueOk(s) && WorkersOk(s) && Enabled(s, step)
    requires t in Do(s, step).tickets && InHand(Do(s, step).tickets[t])
    ensures exists w :: w in Do(s, step).workers && Do(s, step).workers[w] == Busy(t)
  {
    var s' := Do(s, step);
    if step.Pop? && step.t == t {
      assert s'.workers[step.w] == Busy(t);
    } else {
      assert t in s.tickets && InHand(s.tickets[t]);
      var w :| w in s.workers && s.workers[w] == Busy(t);
      assert s'.workers[w] == Busy(t);
    }
  }

  lemma WorkersStep(s: State, step: Step)
    requires QueueOk(s) && WorkersOk(s) && Enabled(s, step)
    ensures WorkersOk(Do(s, step))
  {
    var s' := Do(s, step);
    forall w | w in s'.workers && s'.workers[w].Busy?
      ensures s'.workers[w].t in s'.tickets && !s'.tickets[s'.workers[w].t].Putting? && !s'.tickets[s'.workers[w].t].Queued?
    {
      BusyStep(s, step, w);
    }
    forall t | t in s'.tickets && InHand(s'.tickets[t])
      ensures exists w :: w in s'.workers && s'.workers[w] == Busy(t)
    {
      InHandStep(s, step, t);
    }
    assert s.qclosed ==> s'.qclosed && |s'.queue| <= |s.queue|;
    forall w | w in s'.workers && s'.workers[w].Exited? ensures s'.qclosed && s'.queue == [] {
      assert w in s.workers && (step == Exit(w) || s.workers[w].Exited?);
    }
  }

  // ---------------------------------------------------------------- every accepted item once

  predicate Pending(ph: Phase) {
    ph.Queued? || ph.Popped? || ph.Handling?
  }

  /** An accepted item is queued or in hand, or was handled exactly once; nothing else was. */
  predicate LogOf(s: State, t: Ticket) {
    && s.handled[t] == B(t in s.accepted && !(t in s.tickets && Pending(s.tickets[t])))
    && (t in s.tickets && Pending(s.tickets[t]) ==> t in s.accepted)
    && (t in s.accepted ==> t in s.tickets && !s.tickets[t].Putting?)
  }

  lemma LogOwn(s: State, step: Step)
    requires QueueOk(s) && MovesTicket(step) && LogOf(s, step.t) && Enabled(s, step)
    ensures LogOf(Do(s, step), step.t)
  {
    if step.Pop? {
      assert In(s, s.queue[0], Queued);
    }
    assert Do(s, step).tickets[step.t] == Target(s, step);
  }

  lemma LogOther(s: State, step: Step, t: Ticket)
    requires LogOf(s, t) && Enabled(s, step) && !(MovesTicket(step) && step.t == t)
    ensures LogOf(Do(s, step), t)
  {
    var s' := Do(s, step);
    assert t in s'.tickets <==> t in s.tickets;
    assert t in s.tickets ==> s'.tickets[t] == s.tickets[t];
    assert s'.handled[t] == s.handled[t] && (t in s'.accepted <==> t in s.accepted);
  }

  lemma LogStep(s: State, step: Step, t: Ticket)
    requires QueueOk(s) && LogOf(s, t) && Enabled(s, step)
    ensures LogOf(Do(s, step), t)
  {
    if MovesTicket(step) && step.t == t {
      LogOwn(s, step);
    } else {
      LogOther(s, step, t);
    }
  }

  ghost predicate Logged(s: State) {
    forall t: Ticket :: LogOf(s, t)
  }

  // ---------------------------------------------------------------- the monitor

  predicate PendingTicket(s: State, t: Ticket) {
    t in s.tickets && (s.tickets[t].Loading? || s.tickets[t].Broadcasting?)
  }

  predicate PendingCloser(s: State, c: nat) {
    c in s.closers && s.closers[c]
  }

  predicate Waits(m: Monitor) {
    m.WaitOuter? || m.WaitInner?
  }

  /** A monitor that waits after CloseForSubmit will be woken: something is in flight, or some
      thread is on its way to the broadcast. */
  ghost predicate MonitorWoken(s: State) {
    s.closedForSubmit && Waits(s.monitor) ==>
      s.inflight > 0 || (exists t :: PendingTicket(s, t)) || (exists c :: PendingCloser(s, c))
  }

  lemma MonitorStep(s: State, step: Step)
    requires Counted(s) && QueueOk(s) && MonitorWoken(s) && Enabled(s, step)
    ensures MonitorWoken(Do(s, step))
  {
    var s' := Do(s, step);
    CountedStep(s, step);
    QueueStep(s, step);
    if s'.closedForSubmit && Waits(s'.monitor) {
      match step
      case MonLoadInflight =>
      case MonLoadLen => LenBoundsQueue(s);
      case CloseForSubmit(c) => assert PendingCloser(s', c);
      case Release(t) => assert PendingTicket(s', t);
      case Load(t) => assert s.inflight == 0 ==> PendingTicket(s', t);
      case Broadcast(t) =>
      case CloserBroadcast(c) =>
      case MonCheck =>
      case _ => PendingKept(s, step);
    }
  }

  /** All other steps leave the counter and the threads on their way to a broadcast alone. */
  lemma PendingKept(s: State, step: Step)
    requires QueueOk(s) && Enabled(s, step) && MonitorWoken(s)
    requires !step.Release? && !step.Load? && !step.Broadcast? && !step.CloseForSubmit? && !step.CloserBroadcast?
    requires !step.MonCheck? && !step.MonLoadInflight? && !step.MonLoadLen?
    ensures MonitorWoken(Do(s, step))
  {
    var s' := Do(s, step);
    assert s'.closedForSubmit == s.closedForSubmit && s'.closers == s.closers && s'.inflight >= s.inflight;
    if s'.closedForSubmit && Waits(s'.monitor) && s'.inflight <= 0 {
      if t :| PendingTicket(s, t) {
        TicketStillPending(s, step, t);
      } else {
        var c :| PendingCloser(s, c);
        assert PendingCloser(s', c);
      }
    }
  }

  lemma TicketStillPending(s: State, step: Step, t: Ticket)
    requires QueueOk(s) && Enabled(s, step) && PendingTicket(s, t) && !step.Release? && !step.Load? && !step.Broadcast?
    ensures PendingTicket(Do(s, step), t)
  {
    assert step.Pop? ==> In(s, step.t, Queued);
  }

  /** After CloseForSubmit, without submissions from outside, the monitor closes the queue only
      when nothing is in flight, so a nested submission is refused only after a failure. */
  predicate Graceful(s: State) {
    && (s.monitor.LoadInflight? || s.monitor.LoadLen? || s.monitor.WaitInner? ==> s.closedForSubmit)
    && (!s.late && !s.failed ==> NothingLost(s))
  }

  predicate NothingLost(s: State) {
    && (s.monitor.LoadLen? || s.monitor.Closing? || s.monitor.Finished? || s.qclosed ==>
          s.closedForSubmit && s.inflight == 0)
    && s.refused == {}
    && !s.monitor.Forcing?
    && (forall t | t in s.tickets ::
          !s.tickets[t].ForceClosing? &&
          ((s.tickets[t].Releasing? || s.tickets[t].Loading? || s.tickets[t].Broadcasting?) ==> !s.tickets[t].failed))
  }

  lemma NoTokens(s: State)
    requires Counted(s) && s.inflight == 0
    ensures forall t | t in s.tickets :: !HoldsToken(s.tickets[t])
  {
    forall t | t in s.tickets ensures !HoldsToken(s.tickets[t]) {
      assert t !in Tokens(s.tickets);
    }
  }

  lemma GracefulStep(s: State, step: Step)
    requires Counted(s) && Graceful(s) && QueueOk(s) && Enabled(s, step)
    ensures Graceful(Do(s, step))
  {
    var s' := Do(s, step);
    if !s'.late && !s'.failed {
      assert !s.late && !s.failed;
      if s.inflight == 0 {
        NoTokens(s);
      }
      if MovesTicket(step) {
        assert forall t | t in s'.tickets && t != step.t :: t in s.tickets && s'.tickets[t] == s.tickets[t];
        if step.Pop? {
          assert In(s, s.queue[0], Queued);
        }
      }
    }
  }

  // ---------------------------------------------------------------- all runs

  ghost predicate Inv(s: State) {
    Counted(s) && QueueOk(s) && WorkersOk(s) && Logged(s) && MonitorWoken(s) && Graceful(s)
  }

  lemma InvStep(s: State, step: Step)
    requires Inv(s) && Enabled(s, step)
    ensures Inv(Do(s, step))
  {
    CountedStep(s, step);
    QueueStep(s, step);
    WorkersStep(s, step);
    forall t: Ticket ensures LogOf(Do(s, step), t) {
      LogStep(s, step, t);
    }
    MonitorStep(s, step);
    GracefulStep(s, step);
  }

  lemma InitInv(ws: set<nat>)
    ensures Inv(Init(ws))
  {
    assert Tokens(Init(ws).tickets) == {} && SizedOnes(Init(ws).tickets) == {};
  }

  lemma SameWorkers(s: State, step: Step)
    requires Enabled(s, step)
    ensures Do(s, step).workers.Keys == s.workers.Keys
  {
    if !step.Pop? && !step.Back? && !step.Exit? {
      assert Fields(s, step).workers == s.workers;
    }
  }

  lemma ClosedRefuses(s: State, step: Step)
    requires s.qclosed && Enabled(s, step)
    ensures Do(s, step).accepted == s.accepted && Do(s, step).qclosed
  {
    assert Fields(s, step).accepted == s.accepted && Fields(s, step).qclosed;
  }

  lemma {:induction false} RunKeepsInv(ws: set<nat>, steps: seq<Step>, s: State)
    requires Reached(ws, steps, s)
    ensures Inv(s) && s.workers.Keys == ws
  {
    if steps == [] {
      InitInv(ws);
    } else {
      var front, step := steps[..|steps| - 1], steps[|steps| - 1];
      var m := Execute(Init(ws), front).value;
      RunKeepsInv(ws, front, m);
      InvStep(m, step);
      SameWorkers(m, step);
    }
  }

  /** Pool conservation: when all workers have exited, every item the queue accepted has been
      handled exactly once, and whatever is put from now on is refused. */
  lemma Conservation(ws: set<nat>, steps: seq<Step>, s: State)
    requires Reached(ws, steps, s) && ws != {}
    requires forall w | w in s.workers :: s.workers[w].Exited?
    ensures s.handled == multiset(s.accepted)
    ensures s.queue == [] && s.qclosed
    ensures forall step | Enabled(s, step) :: Do(s, step).accepted == s.accepted && Do(s, step).qclosed
  {
    RunKeepsInv(ws, steps, s);
    var w :| w in ws;
    assert w in s.workers && s.workers[w].Exited?;
    forall step | Enabled(s, step) ensures Do(s, step).accepted == s.accepted && Do(s, step).qclosed {
      ClosedRefuses(s, step);
    }
    forall t: Ticket ensures s.handled[t] == multiset(s.accepted)[t] {
      assert LogOf(s, t);
      assert t in s.tickets ==> !Pending(s.tickets[t]);
    }
  }

  /** In every reachable state Len is at least the length of the queue, and it is zero when
      nothing is in flight. */
  lemma LenNeverUnderReports(ws: set<nat>, steps: seq<Step>, s: State)
    requires Reached(ws, steps, s)
    ensures s.size >= |s.queue|
    ensures s.inflight == 0 ==> s.size == 0 && s.queue == []
  {
    RunKeepsInv(ws, steps, s);
    LenBoundsQueue(s);
  }

  /** The monitor never sleeps through the end: after CloseForSubmit, with nothing in flight and
      no broadcast on its way, it is not waiting. */
  lemma MonitorNeverMissesTheEnd(ws: set<nat>, steps: seq<Step>, s: State)
    requires Reached(ws, steps, s)
    requires s.closedForSubmit && s.inflight == 0
    requires (forall t :: !PendingTicket(s, t)) && (forall c :: !PendingCloser(s, c))
    ensures !Waits(s.monitor)
  {
    RunKeepsInv(ws, steps, s);
  }

  /** Without a failing handler and without submissions from outside after CloseForSubmit, no
      submission is ever refused, and the queue is closed only when all work is finished. */
  lemma GracefulShutdown(ws: set<nat>, steps: seq<Step>, s: State)
    requires Reached(ws, steps, s) && !s.failed && !s.late
    ensures s.refused == {}
    ensures s.qclosed ==> s.inflight == 0 && s.handled == multiset(s.accepted)
  {
    RunKeepsInv(ws, steps, s);
    if s.qclosed {
      NoTokens(s);
      forall t: Ticket ensures s.handled[t] == multiset(s.accepted)[t] {
        assert LogOf(s, t);
      }
    }
  }

  // ---------------------------------------------------------------- a failing handler closes the queue

  /** A worker whose handler failed, on its way to close the queue. */
  predicate Failing(ph: Phase) {
    ph.ForceClosing? || ((ph.Releasing? || ph.Loading? || ph.Broadcasting?) && ph.failed)
  }

  ghost predicate FailureSeen(s: State) {
    s.failed ==> s.qclosed || exists t :: t in s.tickets && Failing(s.tickets[t])
  }

  lemma {:induction false} FailingStep(s: State, step: Step, t: Ticket)
    requires QueueOk(s) && Enabled(s, step) && t in s.tickets && Failing(s.tickets[t])
    ensures Do(s, step).qclosed || (t in Do(s, step).tickets && Failing(Do(s, step).tickets[t]))
  {
    assert step.Pop? ==> In(s, step.t, Queued);
    if MovesTicket(step) && step.t == t {
      assert Do(s, step).tickets[t] == Target(s, step);
    }
  }

  lemma {:induction false} QueueStaysClosed(s: State, step: Step)
    requires Enabled(s, step) && s.qclosed
    ensures Do(s, step).qclosed
  {
    ClosedRefuses(s, step);
  }

  lemma {:induction false} FailureStep(s: State, step: Step)
    requires QueueOk(s) && Enabled(s, step) && FailureSeen(s)
    ensures FailureSeen(Do(s, step))
  {
    if s.qclosed {
      QueueStaysClosed(s, step);
    } else if s.failed {
      var t :| t in s.tickets && Failing(s.tickets[t]);
      FailingStep(s, step, t);
    } else if step.Finish? && step.err {
      assert Do(s, step).tickets[step.t] == Releasing(true);
    }
  }

  /** A failing handler stops the pool: once the worker is through with it the queue is closed, and
      nothing more is accepted. */
  lemma {:induction false} FailureCloses(ws: set<nat>, steps: seq<Step>, s: State)
    requires Reached(ws, steps, s)
    ensures FailureSeen(s)
    decreases |steps|
  {
    if steps != [] {
      var front := steps[..|steps| - 1];
      var m := Execute(Init(ws), front).value;
      FailureCloses(ws, front, m);
      RunKeepsInv(ws, front, m);
      FailureStep(m, steps[|steps| - 1]);
    }
  }

  /** The monitor decides to close only when it sees the queue empty. */
  lemma {:induction false} ClosesWhenEmpty(ws: set<nat>, steps: seq<Step>, s: State, step: Step)
    requires Reached(ws, steps, s) && Enabled(s, step) && Do(s, step).monitor.Closing? && !s.monitor.Closing?
    ensures s.queue == [] && s.closedForSubmit
  {
    RunKeepsInv(ws, steps, s);
    LenBoundsQueue(s);
  }

  /** The monitor goes to sleep only when submission is open and nothing failed, or when something is
      in flight or not yet counted down. */
  lemma {:induction false} SleepsOnlyForWork(ws: set<nat>, steps: seq<Step>, s: State, step: Step)
    requires Reached(ws, steps, s) && Enabled(s, step) && Waits(Do(s, step).monitor) && !Waits(s.monitor)
    ensures if s.closedForSubmit then s.inflight != 0 || s.size != 0 else !s.failed
  {
    RunKeepsInv(ws, steps, s);
  }
}
