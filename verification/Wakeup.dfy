/** The pub/sub wake-up chain: publishers push frames into subscriber slots,
    raise the slot's flag, hand its token to the worker's pending queue and wake
    the worker; the worker drains tokens and then slots. Every load, store, swap,
    push and pop of the code is one atomic step; any number of publishers
    interleave with one worker. Call 0 is the worker's own call to `notify`. */
module Wakeup {
  import opened Common
  import opened Runs

  type Frame = nat

  /** A subscriber slot, with the order in which frames entered its queue and
      the order in which the worker took them out. */
  datatype Slot = Slot(queue: seq<Frame>, notifyPending: bool, len: int,
                       accepted: seq<Frame>, delivered: seq<Frame>)

  /** A call of `push`, continued by `notify`. */
  datatype Call =
    | Idle
    | Counted(k: nat, f: Frame)   // len incremented
    | Queued(k: nat)              // frame queued, flag not yet swapped
    | Token(k: nat)               // flag was clear: token to be pushed
    | TokenPushed                 // token pushed, wake_pending not yet swapped
    | Waking                      // wake_pending was clear: waker to be fired

  datatype WorkerPc =
    | Polling
    | Popping | Storing | Checking | Rearming                        // drain_pending_into
    | SlotPop(k: nat, n: nat) | SlotSub(k: nat, n: nat)              // drain_into_limit
    | SlotCheck(k: nat) | SlotSwap(k: nat) | Notifying

  datatype State = State(
    pending: seq<nat>, wakePending: bool,
    wake: bool,                                       // an undelivered waker event
    slots: seq<Slot>, calls: seq<Call>,
    worker: WorkerPc, batch: set<nat>)                // tokens the worker has taken and not yet served

  /** Whether the worker may drop a token whose queue looks empty without
      draining its slot, as a connection with a full write buffer does. */
  datatype Policy = AlwaysDrain | MaySkip

  datatype Step =
    | NewPublisher | NewSlot
    | PushCount(i: nat, k: nat, f: Frame) | PushQueue(i: nat) | PushFlag(i: nat)
    | NotifyToken(i: nat) | NotifySwap(i: nat) | NotifyWake(i: nat)
    | WakeUp | PopToken | PopNone | StoreFalse | CheckEmpty | Rearm
    | DrainStart(k: nat) | DrainPop | DrainStop | DrainSub | DrainCheck | DrainSwap | NotifyReturn
    | SkipToken(k: nat)

  const INIT := State([], false, false, [], [Idle], Polling, {})

  predicate Enabled(p: Policy, s: State, step: Step) {
    match step
    case NewPublisher => true
    case NewSlot => true
    case PushCount(i, k, _) => 1 <= i < |s.calls| && s.calls[i].Idle? && k < |s.slots|
    case PushQueue(i) => i < |s.calls| && s.calls[i].Counted? && s.calls[i].k < |s.slots|
    case PushFlag(i) => i < |s.calls| && s.calls[i].Queued? && s.calls[i].k < |s.slots|
    case NotifyToken(i) => i < |s.calls| && s.calls[i].Token?
    case NotifySwap(i) => i < |s.calls| && s.calls[i].TokenPushed?
    case NotifyWake(i) => i < |s.calls| && s.calls[i].Waking?
    case WakeUp => s.worker.Polling? && s.wake
    case PopToken => s.worker.Popping? && s.pending != []
    case PopNone => s.worker.Popping? && s.pending == []
    case StoreFalse => s.worker.Storing?
    case CheckEmpty => s.worker.Checking?
    case Rearm => s.worker.Rearming?
    case DrainStart(k) => s.worker.Polling? && k < |s.slots|
    case DrainPop => s.worker.SlotPop? && s.worker.k < |s.slots| && s.slots[s.worker.k].queue != []
    case DrainStop =>
      s.worker.SlotPop? && s.worker.k < |s.slots| && (s.slots[s.worker.k].queue == [] || s.worker.n > 0)
    case DrainSub => s.worker.SlotSub? && s.worker.k < |s.slots|
    case DrainCheck => s.worker.SlotCheck? && s.worker.k < |s.slots|
    case DrainSwap => s.worker.SlotSwap? && s.worker.k < |s.slots| && 0 < |s.calls|
    case NotifyReturn => s.worker.Notifying? && 0 < |s.calls| && s.calls[0].Idle?
    case SkipToken(k) =>
      p.MaySkip? && s.worker.Polling? && k in s.batch && k < |s.slots| && s.slots[k].queue == []
  }

  function SetCall(s: State, i: nat, c: Call): State
    requires i < |s.calls|
  {
    s.(calls := s.calls[i := c])
  }

  function SetSlot(s: State, k: nat, sl: Slot): State
    requires k < |s.slots|
  {
    s.(slots := s.slots[k := sl])
  }

  function Apply(p: Policy, s: State, step: Step): State
    requires Enabled(p, s, step)
  {
    match step
    case NewPublisher => s.(calls := s.calls + [Idle])
    case NewSlot => s.(slots := s.slots + [Slot([], false, 0, [], [])])
    case PushCount(i, k, f) =>
      SetCall(SetSlot(s, k, s.slots[k].(len := s.slots[k].len + 1)), i, Counted(k, f))
    case PushQueue(i) =>
      var k, f := s.calls[i].k, s.calls[i].f;
      var sl := s.slots[k];
      SetCall(SetSlot(s, k, sl.(queue := sl.queue + [f], accepted := sl.accepted + [f])), i, Queued(k))
    case PushFlag(i) =>
      var k := s.calls[i].k;
      SetCall(SetSlot(s, k, s.slots[k].(notifyPending := true)), i,
              if s.slots[k].notifyPending then Idle else Token(k))
    case NotifyToken(i) => SetCall(s.(pending := s.pending + [s.calls[i].k]), i, TokenPushed)
    case NotifySwap(i) => SetCall(s.(wakePending := true), i, if s.wakePending then Idle else Waking)
    case NotifyWake(i) => SetCall(s.(wake := true), i, Idle)
    case WakeUp => s.(wake := false, worker := Popping)
    case PopToken => s.(pending := s.pending[1..], batch := s.batch + {s.pending[0]})
    case PopNone => s.(worker := Storing)
    case StoreFalse => s.(wakePending := false, worker := Checking)
    case CheckEmpty => s.(worker := if s.pending == [] then Polling else Rearming)
    case Rearm => s.(wakePending := true, worker := if s.wakePending then Polling else Popping)
    case DrainStart(k) =>
      SetSlot(s, k, s.slots[k].(notifyPending := false)).(worker := SlotPop(k, 0), batch := s.batch - {k})
    case DrainPop =>
      var sl := s.slots[s.worker.k];
      SetSlot(s, s.worker.k, sl.(queue := sl.queue[1..], delivered := sl.delivered + [sl.queue[0]]))
        .(worker := SlotPop(s.worker.k, s.worker.n + 1))
    case DrainStop => s.(worker := SlotSub(s.worker.k, s.worker.n))
    case DrainSub =>
      var sl := s.slots[s.worker.k];
      SetSlot(s, s.worker.k, sl.(len := sl.len - s.worker.n)).(worker := SlotCheck(s.worker.k))
    case DrainCheck =>
      s.(worker := if s.slots[s.worker.k].queue == [] then Polling else SlotSwap(s.worker.k))
    case DrainSwap =>
      var sl := s.slots[s.worker.k];
      var s' := SetSlot(s, s.worker.k, sl.(notifyPending := true));
      if sl.notifyPending then s'.(worker := Polling)
      else SetCall(s', 0, Token(s.worker.k)).(worker := Notifying)
    case NotifyReturn => s.(worker := Polling)
    case SkipToken(k) => s.(batch := s.batch - {k})
  }

  /** The state after a step, where the step can be taken. */
  function Next(p: Policy): (State, Step) -> Option<State> {
    (s, step) => if Enabled(p, s, step) then Some(Apply(p, s, step)) else None
  }

  ghost predicate Reachable(p: Policy, s: State) {
    Leads(Next(p), INIT, s)
  }

  // ----- the invariant ------------------------------------------------------

  /** Publishers that have counted a frame for slot k and not queued it. */
  function Uncounted(calls: seq<Call>, k: nat): nat {
    if calls == [] then 0
    else Uncounted(calls[1..], k) + (if calls[0].Counted? && calls[0].k == k then 1 else 0)
  }

  /** Frames of slot k that the worker has popped and not subtracted from `len`. */
  function Unsubtracted(w: WorkerPc, k: nat): nat {
    if (w.SlotPop? || w.SlotSub?) && w.k == k then w.n else 0
  }

  ghost predicate DrainingTokens(w: WorkerPc) {
    w.Popping? || w.Storing? || w.Checking? || w.Rearming?
  }

  ghost predicate DrainingSlot(w: WorkerPc, k: nat) {
    (w.SlotPop? || w.SlotSub? || w.SlotCheck? || w.SlotSwap?) && w.k == k
  }

  ghost predicate WakeInv(s: State) {
    && (s.pending != [] ==> s.wakePending || TokenPushed in s.calls || DrainingTokens(s.worker))
    && (s.wakePending ==> s.wake || Waking in s.calls || s.worker.Popping? || s.worker.Storing?)
  }

  ghost predicate FlagInv(s: State, k: nat)
    requires k < |s.slots|
  {
    && (s.slots[k].queue != [] ==>
          s.slots[k].notifyPending || Queued(k) in s.calls || DrainingSlot(s.worker, k))
    && (s.slots[k].notifyPending ==> k in s.pending || k in s.batch || Token(k) in s.calls)
  }

  ghost predicate FrameInv(s: State, k: nat)
    requires k < |s.slots|
  {
    && s.slots[k].len == |s.slots[k].queue| + Uncounted(s.calls, k) + Unsubtracted(s.worker, k)
    && s.slots[k].delivered + s.slots[k].queue == s.slots[k].accepted
  }

  ghost predicate CallInv(s: State) {
    && 0 < |s.calls|
    && (s.calls[0].Idle? || s.worker.Notifying?)
    && !s.calls[0].Counted? && !s.calls[0].Queued?
    && (forall i :: 0 <= i < |s.calls| && (s.calls[i].Counted? || s.calls[i].Queued? || s.calls[i].Token?) ==>
          s.calls[i].k < |s.slots|)
    && (s.worker.SlotPop? || s.worker.SlotSub? || s.worker.SlotCheck? || s.worker.SlotSwap? ==>
          s.worker.k < |s.slots|)
  }

  ghost predicate Inv(s: State) {
    && CallInv(s)
    && WakeInv(s)
    && (forall k :: 0 <= k < |s.slots| ==> FlagInv(s, k))
    && (forall k :: 0 <= k < |s.slots| ==> FrameInv(s, k))
  }

  lemma {:induction false} UncountedUpdate(calls: seq<Call>, i: nat, c: Call, k: nat)
    requires i < |calls|
    ensures Uncounted(calls[i := c], k) ==
              Uncounted(calls, k)
              - (if calls[i].Counted? && calls[i].k == k then 1 else 0)
              + (if c.Counted? && c.k == k then 1 else 0)
    decreases |calls|
  {
    if i > 0 {
      assert calls[i := c][1..] == calls[1..][i - 1 := c];
      UncountedUpdate(calls[1..], i - 1, c, k);
    } else {
      assert calls[i := c][1..] == calls[1..];
    }
  }

  lemma {:induction false} UncountedAppendIdle(calls: seq<Call>, k: nat)
    ensures Uncounted(calls + [Idle], k) == Uncounted(calls, k)
    decreases |calls|
  {
    if calls == [] {
      assert (calls + [Idle])[1..] == [];
    } else {
      assert (calls + [Idle])[1..] == calls[1..] + [Idle];
      UncountedAppendIdle(calls[1..], k);
    }
  }

  lemma {:induction false} UncountedNone(calls: seq<Call>, k: nat)
    requires forall c <- calls :: !(c.Counted? && c.k == k)
    ensures Uncounted(calls, k) == 0
    decreases |calls|
  {
    if calls != [] {
      UncountedNone(calls[1..], k);
    }
  }

  /** Replacing call i by c keeps every other kind of call in the list. */
  lemma CallKept(calls: seq<Call>, i: nat, c: Call, x: Call)
    requires i < |calls|
    ensures x in calls && x != calls[i] ==> x in calls[i := c]
    ensures c in calls[i := c]
  {
    if x in calls && x != calls[i] {
      var j :| 0 <= j < |calls| && calls[j] == x;
      assert calls[i := c][j] == x;
    }
    assert calls[i := c][i] == c;
  }

  lemma FlagsKept(s: State, s': State, i: nat, c: Call)
    requires Inv(s) && i < |s.calls| && s'.calls == s.calls[i := c]
    requires |s'.slots| == |s.slots|
    requires
      || s'.worker == s.worker
      || (!s.worker.SlotPop? && !s.worker.SlotSub? && !s.worker.SlotCheck? && !s.worker.SlotSwap?)
    requires forall t :: t in s.pending ==> t in s'.pending
    requires s.batch <= s'.batch
    requires forall k :: 0 <= k < |s.slots| ==>
      && (s'.slots[k].queue != [] ==> s.slots[k].queue != [] || s'.slots[k].notifyPending || Queued(k) == c)
      && (s.slots[k].notifyPending ==> s'.slots[k].notifyPending)
      && (s'.slots[k].notifyPending ==> s.slots[k].notifyPending || Token(k) == c)
      && (s.calls[i] == Queued(k) ==> s'.slots[k].notifyPending)
      && (s.calls[i] == Token(k) ==> k in s'.pending)
    ensures forall k :: 0 <= k < |s'.slots| ==> FlagInv(s', k)
  {
    forall k | 0 <= k < |s'.slots| ensures FlagInv(s', k) {
      assert FlagInv(s, k);
      CallKept(s.calls, i, c, Queued(k));
      CallKept(s.calls, i, c, Token(k));
    }
  }

  // ----- every step keeps it ------------------------------------------------

  lemma StepNew(p: Policy, s: State, step: Step)
    requires Inv(s) && Enabled(p, s, step) && (step.NewPublisher? || step.NewSlot?)
    ensures Inv(Apply(p, s, step))
  {
    var s' := Apply(p, s, step);
    assert forall c :: c in s.calls ==> c in s'.calls;
    forall k | 0 <= k < |s'.slots| ensures FlagInv(s', k) && FrameInv(s', k) {
      UncountedAppendIdle(s.calls, k);
      if k < |s.slots| {
        assert FlagInv(s, k) && FrameInv(s, k);
      } else {
        UncountedNone(s.calls, k);
      }
    }
  }

  lemma StepPush(p: Policy, s: State, step: Step)
    requires Inv(s) && Enabled(p, s, step) && (step.PushCount? || step.PushQueue? || step.PushFlag?)
    ensures Inv(Apply(p, s, step))
  {
    var s' := Apply(p, s, step);
    var i := step.i;
    var c := s'.calls[i];
    CallKept(s.calls, i, c, TokenPushed);
    CallKept(s.calls, i, c, Waking);
    FlagsKept(s, s', i, c);
    forall k | 0 <= k < |s'.slots| ensures FrameInv(s', k) {
      assert FrameInv(s, k);
      UncountedUpdate(s.calls, i, c, k);
      var sl := s.slots[k];
      if step.PushQueue? && k == s.calls[i].k {
        assert sl.delivered + (sl.queue + [s.calls[i].f]) == (sl.delivered + sl.queue) + [s.calls[i].f];
      }
    }
  }

  lemma StepNotify(p: Policy, s: State, step: Step)
    requires Inv(s) && Enabled(p, s, step) && (step.NotifyToken? || step.NotifySwap? || step.NotifyWake?)
    ensures Inv(Apply(p, s, step))
  {
    var s' := Apply(p, s, step);
    var i := step.i;
    var c := s'.calls[i];
    CallKept(s.calls, i, c, TokenPushed);
    CallKept(s.calls, i, c, Waking);
    if step.NotifyToken? {
      assert s'.pending[|s.pending|] == s.calls[i].k;
    }
    FlagsKept(s, s', i, c);
    forall k | 0 <= k < |s'.slots| ensures FrameInv(s', k) {
      assert FrameInv(s, k);
      UncountedUpdate(s.calls, i, c, k);
    }
  }

  lemma StepTokens(p: Policy, s: State, step: Step)
    requires Inv(s) && Enabled(p, s, step)
    requires step.WakeUp? || step.PopToken? || step.PopNone? || step.StoreFalse? ||
             step.CheckEmpty? || step.Rearm? || step.NotifyReturn?
    ensures Inv(Apply(p, s, step))
  {
    var s' := Apply(p, s, step);
    forall k | 0 <= k < |s'.slots| ensures FlagInv(s', k) && FrameInv(s', k) {
      assert FlagInv(s, k) && FrameInv(s, k);
      if step.PopToken? && k in s.pending {
        assert s.pending == [s.pending[0]] + s.pending[1..];
      }
    }
  }

  lemma StepDrainStart(s: State, step: Step)
    requires Inv(s) && Enabled(AlwaysDrain, s, step) && step.DrainStart?
    ensures Inv(Apply(AlwaysDrain, s, step))
  {
    var s' := Apply(AlwaysDrain, s, step);
    forall k | 0 <= k < |s'.slots| ensures FlagInv(s', k) && FrameInv(s', k) {
      assert FlagInv(s, k) && FrameInv(s, k);
    }
  }

  lemma StepDrain(s: State, step: Step)
    requires Inv(s) && Enabled(AlwaysDrain, s, step)
    requires step.DrainPop? || step.DrainStop? || step.DrainSub? || step.DrainCheck?
    ensures Inv(Apply(AlwaysDrain, s, step))
  {
    var s' := Apply(AlwaysDrain, s, step);
    forall k | 0 <= k < |s'.slots| ensures FlagInv(s', k) {
      assert FlagInv(s, k);
    }
    forall k | 0 <= k < |s'.slots| ensures FrameInv(s', k) {
      assert FrameInv(s, k);
      var q := s.slots[k].queue;
      if step.DrainPop? && k == s.worker.k {
        assert (s.slots[k].delivered + [q[0]]) + q[1..] == s.slots[k].delivered + q;
      }
    }
  }

  /** The end of a drain that found the flag already raised again. */
  lemma StepDrainSwapRaised(s: State)
    requires Inv(s) && Enabled(AlwaysDrain, s, DrainSwap) && s.slots[s.worker.k].notifyPending
    ensures Inv(Apply(AlwaysDrain, s, DrainSwap))
  {
    var s' := Apply(AlwaysDrain, s, DrainSwap);
    assert s'.slots == s.slots;
    forall k | 0 <= k < |s'.slots| ensures FlagInv(s', k) && FrameInv(s', k) {
      assert FlagInv(s, k) && FrameInv(s, k);
    }
  }

  /** The end of a drain that leaves frames behind and notifies again. */
  lemma StepDrainSwapClear(s: State)
    requires Inv(s) && Enabled(AlwaysDrain, s, DrainSwap) && !s.slots[s.worker.k].notifyPending
    ensures Inv(Apply(AlwaysDrain, s, DrainSwap))
  {
    var s' := Apply(AlwaysDrain, s, DrainSwap);
    var c := Token(s.worker.k);
    assert s.calls[0].Idle?;
    assert WakeInv(s') by {
      CallKept(s.calls, 0, c, TokenPushed);
      CallKept(s.calls, 0, c, Waking);
    }
    forall k | 0 <= k < |s'.slots| ensures FlagInv(s', k) {
      assert FlagInv(s, k);
      CallKept(s.calls, 0, c, Queued(k));
      CallKept(s.calls, 0, c, Token(k));
    }
    forall k | 0 <= k < |s'.slots| ensures FrameInv(s', k) {
      assert FrameInv(s, k);
      UncountedUpdate(s.calls, 0, c, k);
    }
  }

  lemma StepKeepsInv(s: State, step: Step)
    requires Inv(s) && Enabled(AlwaysDrain, s, step)
    ensures Inv(Apply(AlwaysDrain, s, step))
  {
    match step {
      case NewPublisher => StepNew(AlwaysDrain, s, step);
      case NewSlot => StepNew(AlwaysDrain, s, step);
      case PushCount(_, _, _) => StepPush(AlwaysDrain, s, step);
      case PushQueue(_) => StepPush(AlwaysDrain, s, step);
      case PushFlag(_) => StepPush(AlwaysDrain, s, step);
      case NotifyToken(_) => StepNotify(AlwaysDrain, s, step);
      case NotifySwap(_) => StepNotify(AlwaysDrain, s, step);
      case NotifyWake(_) => StepNotify(AlwaysDrain, s, step);
      case DrainStart(_) => StepDrainStart(s, step);
      case DrainPop => StepDrain(s, step);
      case DrainStop => StepDrain(s, step);
      case DrainSub => StepDrain(s, step);
      case DrainCheck => StepDrain(s, step);
      case DrainSwap =>
        if s.slots[s.worker.k].notifyPending { StepDrainSwapRaised(s); } else { StepDrainSwapClear(s); }
      case _ => StepTokens(AlwaysDrain, s, step);
    }
  }

  lemma RunKeepsInv(s: State, s': State)
    requires Inv(s) && Leads(Next(AlwaysDrain), s, s')
    ensures Inv(s')
  {
    forall x, step | Inv(x) && Enabled(AlwaysDrain, x, step) ensures Inv(Apply(AlwaysDrain, x, step)) {
      StepKeepsInv(x, step);
    }
    LeadsKeeps(Next(AlwaysDrain), Inv, s, s');
  }

  // ----- what every run guarantees -----------------------------------------

  /** No call of `push`, `notify` or a drain is under way. */
  ghost predicate Quiet(s: State) {
    s.worker.Polling? && forall c <- s.calls :: c.Idle?
  }

  ghost predicate NoLostWakeup(s: State) {
    Quiet(s) ==>
      && (s.pending != [] ==> s.wake)
      && (forall k :: 0 <= k < |s.slots| && s.slots[k].queue != [] ==> k in s.pending || k in s.batch)
  }

  lemma WakeupsNotLost(s: State)
    requires Reachable(AlwaysDrain, s)
    ensures NoLostWakeup(s)
  {
    RunKeepsInv(INIT, s);
    if Quiet(s) {
      forall k | 0 <= k < |s.slots| && s.slots[k].queue != [] ensures k in s.pending || k in s.batch {
        assert FlagInv(s, k);
      }
    }
  }

  /** `len` counts what is queued, what is being pushed and what the worker has
      popped without subtracting, so it never falls below zero; when the store is
      quiet it is the queue length. Frames leave in the order they entered,
      each once. */
  lemma FramesAccounted(s: State, k: nat)
    requires Reachable(AlwaysDrain, s) && k < |s.slots|
    ensures s.slots[k].len == |s.slots[k].queue| + Uncounted(s.calls, k) + Unsubtracted(s.worker, k)
    ensures Quiet(s) ==> s.slots[k].len == |s.slots[k].queue|
    ensures s.slots[k].delivered + s.slots[k].queue == s.slots[k].accepted
  {
    RunKeepsInv(INIT, s);
    assert FrameInv(s, k);
    if Quiet(s) {
      UncountedNone(s.calls, k);
    }
  }

  // ----- frames reach the slots they were pushed to ------------------------------

  /** How often the steps push frame f to slot k. */
  function Pushes(steps: seq<Step>, k: nat, f: Frame): nat {
    if steps == [] then 0
    else
      var last := steps[|steps| - 1];
      Pushes(steps[..|steps| - 1], k, f) + if last.PushCount? && last.k == k && last.f == f then 1 else 0
  }

  function Carried(c: Call, k: nat, f: Frame): nat { if c == Counted(k, f) then 1 else 0 }

  /** How many calls have counted frame f for slot k and not yet queued it. */
  function InFlight(calls: seq<Call>, k: nat, f: Frame): nat {
    if calls == [] then 0 else InFlight(calls[..|calls| - 1], k, f) + Carried(calls[|calls| - 1], k, f)
  }

  lemma {:induction false} InFlightUpdate(calls: seq<Call>, i: nat, c: Call, k: nat, f: Frame)
    requires i < |calls|
    ensures InFlight(calls[i := c], k, f) + Carried(calls[i], k, f) == InFlight(calls, k, f) + Carried(c, k, f)
  {
    var front := calls[..|calls| - 1];
    if i == |calls| - 1 {
      assert calls[i := c][..|calls| - 1] == front;
    } else {
      assert calls[i := c][..|calls| - 1] == front[i := c];
      InFlightUpdate(front, i, c, k, f);
    }
  }

  lemma PublisherFrames(calls: seq<Call>, k: nat, f: Frame)
    ensures InFlight(calls + [Idle], k, f) == InFlight(calls, k, f)
  {
    assert (calls + [Idle])[..|calls|] == calls;
  }

  /** How often slot k has accepted frame f. */
  function Accepts(s: State, k: nat, f: Frame): nat {
    if k < |s.slots| then multiset(s.slots[k].accepted)[f] else 0
  }

  /** The call that the worker makes itself pushes nothing. */
  predicate WorkersOwn(s: State) { 0 < |s.calls| && !s.calls[0].Counted? }

  /** The call of a step, where it has one. */
  function CallOf(step: Step): nat {
    match step
    case PushCount(i, _, _) => i
    case PushQueue(i) => i
    case PushFlag(i) => i
    case NotifyToken(i) => i
    case NotifySwap(i) => i
    case NotifyWake(i) => i
    case _ => 0
  }

  lemma StepCalls(p: Policy, s: State, step: Step)
    requires Enabled(p, s, step) && WorkersOwn(s)
    ensures var s', i := Apply(p, s, step), CallOf(step);
            && WorkersOwn(s')
            && if step.NewPublisher? then s'.calls == s.calls + [Idle]
               else i < |s.calls| && s'.calls == s.calls[i := s'.calls[i]] &&
                    (s'.calls[i].Counted? ==> step.PushCount? || s'.calls[i] == s.calls[i]) &&
                    (s.calls[i].Counted? ==> step.PushQueue? || s'.calls[i] == s.calls[i])
  {
  }

  /** Only queueing a frame makes a slot accept one. */
  lemma AcceptedStays(p: Policy, s: State, step: Step, k: nat)
    requires Enabled(p, s, step) && !step.PushQueue? && k < |s.slots|
    ensures k < |Apply(p, s, step).slots| && Apply(p, s, step).slots[k].accepted == s.slots[k].accepted
  {
  }

  lemma StepSlots(p: Policy, s: State, step: Step, k: nat, f: Frame)
    requires Enabled(p, s, step)
    ensures Accepts(Apply(p, s, step), k, f) ==
            Accepts(s, k, f) + if step.PushQueue? && s.calls[step.i] == Counted(k, f) then 1 else 0
  {
    if !step.PushQueue? && k < |s.slots| {
      AcceptedStays(p, s, step, k);
    }
  }

  /** One step: what slot k has accepted and what is on its way to it grow by the frame that is pushed to it. */
  lemma StepFrames(p: Policy, s: State, step: Step, k: nat, f: Frame)
    requires Enabled(p, s, step) && WorkersOwn(s)
    ensures var s' := Apply(p, s, step);
            WorkersOwn(s') &&
            Accepts(s', k, f) + InFlight(s'.calls, k, f) ==
              Accepts(s, k, f) + InFlight(s.calls, k, f) +
              if step.PushCount? && step.k == k && step.f == f then 1 else 0
  {
    var s', i := Apply(p, s, step), CallOf(step);
    StepCalls(p, s, step);
    StepSlots(p, s, step, k, f);
    if step.NewPublisher? {
      PublisherFrames(s.calls, k, f);
    } else {
      InFlightUpdate(s.calls, i, s'.calls[i], k, f);
    }
  }

  /** Over any run, what a slot has accepted, with what calls carry to it, is
      what was pushed to it: every frame reaches its own slot, once. */
  lemma {:induction false} FramesReachTheirSlot(p: Policy, steps: seq<Step>, k: nat, f: Frame)
    requires Run(Next(p), INIT, steps).Some?
    ensures var s := Run(Next(p), INIT, steps).value;
            WorkersOwn(s) && Accepts(s, k, f) + InFlight(s.calls, k, f) == Pushes(steps, k, f)
    decreases |steps|
  {
    if steps == [] {
      PublisherFrames([], k, f);
    } else {
      var front, step := steps[..|steps| - 1], steps[|steps| - 1];
      assert steps == front + [step];
      RunSnoc(Next(p), INIT, front, step);
      FramesReachTheirSlot(p, front, k, f);
      StepFrames(p, Run(Next(p), INIT, front).value, step, k, f);
    }
  }

  // ----- frames are delivered ------------------------------------------------------

  /** The worker alone, which drains a slot only for a token that it has taken. */
  ghost function WorkerNext(): (State, Step) -> Option<State> {
    (s: State, step: Step) =>
      if Enabled(AlwaysDrain, s, step) && WorkerStep(step) && (step.DrainStart? ==> step.k in s.batch)
      then Some(Apply(AlwaysDrain, s, step)) else None
  }

  predicate WorkerStep(step: Step) {
    step.WakeUp? || step.PopToken? || step.PopNone? || step.StoreFalse? || step.CheckEmpty? ||
    step.DrainStart? || step.DrainPop? || step.DrainStop? || step.DrainSub? || step.DrainCheck?
  }

  /** What the worker takes on from s0: the slots as they are, apart from what it drains. */
  ghost predicate Works(s0: State, s: State) {
    && Leads(WorkerNext(), s0, s)
    && |s.slots| == |s0.slots| && forall k :: 0 <= k < |s.slots| ==> Drained(s0.slots[k], s.slots[k])
  }

  /** The same frames in the same order, some of them moved from the queue to the delivered ones. */
  predicate Drained(a: Slot, b: Slot) {
    b.accepted == a.accepted && b.delivered + b.queue == a.delivered + a.queue
  }

  lemma WorkDrains(s: State, step: Step)
    requires Enabled(AlwaysDrain, s, step) && WorkerStep(step)
    ensures var s' := Apply(AlwaysDrain, s, step);
            |s'.slots| == |s.slots| && forall k :: 0 <= k < |s.slots| ==> Drained(s.slots[k], s'.slots[k])
  {
    if step.DrainPop? {
      var sl := s.slots[s.worker.k];
      assert sl.queue == [sl.queue[0]] + sl.queue[1..];
      assert sl.delivered + [sl.queue[0]] + sl.queue[1..] == sl.delivered + sl.queue;
    }
  }

  lemma WorkOn(s0: State, s: State, step: Step)
    requires Works(s0, s) && Enabled(AlwaysDrain, s, step) && WorkerStep(step)
    requires step.DrainStart? ==> step.k in s.batch
    ensures Works(s0, Apply(AlwaysDrain, s, step))
  {
    assert WorkerNext()(s, step) == Some(Apply(AlwaysDrain, s, step));
    LeadsOn(WorkerNext(), s0, s, step);
    WorkDrains(s, step);
    var s' := Apply(AlwaysDrain, s, step);
    forall k | 0 <= k < |s'.slots| ensures Drained(s0.slots[k], s'.slots[k]) {
      assert Drained(s0.slots[k], s.slots[k]) && Drained(s.slots[k], s'.slots[k]);
    }
  }

  /** Every pending token is taken. */
  lemma {:induction false} TakesTokens(s0: State, s: State) returns (t: State)
    requires Works(s0, s) && s.worker.Popping?
    ensures Works(s0, t) && t.worker.Polling? && t.slots == s.slots
    ensures forall k :: k in s.pending || k in s.batch ==> k in t.batch
    decreases |s.pending|
  {
    if s.pending == [] {
      WorkOn(s0, s, PopNone);
      var s1 := Apply(AlwaysDrain, s, PopNone);
      WorkOn(s0, s1, StoreFalse);
      var s2 := Apply(AlwaysDrain, s1, StoreFalse);
      WorkOn(s0, s2, CheckEmpty);
      t := Apply(AlwaysDrain, s2, CheckEmpty);
    } else {
      WorkOn(s0, s, PopToken);
      t := TakesTokens(s0, Apply(AlwaysDrain, s, PopToken));
      assert s.pending == [s.pending[0]] + s.pending[1..];
    }
  }

  /** Every frame of the slot under the drain goes out. */
  lemma {:induction false} DrainsSlot(s0: State, s: State) returns (t: State)
    requires Works(s0, s) && s.worker.SlotPop? && s.worker.k < |s.slots|
    ensures Works(s0, t) && t.worker.Polling? && t.batch == s.batch && t.slots[s.worker.k].queue == []
    ensures forall q :: 0 <= q < |s.slots| && q != s.worker.k ==> t.slots[q].queue == s.slots[q].queue
    decreases |s.slots[s.worker.k].queue|
  {
    if s.slots[s.worker.k].queue == [] {
      WorkOn(s0, s, DrainStop);
      var s1 := Apply(AlwaysDrain, s, DrainStop);
      WorkOn(s0, s1, DrainSub);
      var s2 := Apply(AlwaysDrain, s1, DrainSub);
      WorkOn(s0, s2, DrainCheck);
      t := Apply(AlwaysDrain, s2, DrainCheck);
    } else {
      WorkOn(s0, s, DrainPop);
      t := DrainsSlot(s0, Apply(AlwaysDrain, s, DrainPop));
    }
  }

  /** The worker has the token of every slot that holds a frame. */
  ghost predicate TokensTaken(s: State) {
    forall k :: 0 <= k < |s.slots| && s.slots[k].queue != [] ==> k in s.batch
  }

  /** Slot after slot is emptied. */
  lemma {:induction false} DrainsAll(s0: State, s: State, n: nat) returns (t: State)
    requires Works(s0, s) && s.worker.Polling? && TokensTaken(s) && n <= |s.slots|
    requires forall k :: 0 <= k < n ==> s.slots[k].queue == []
    ensures Works(s0, t) && t.worker.Polling? && forall k :: 0 <= k < |t.slots| ==> t.slots[k].queue == []
    decreases |s.slots| - n
  {
    if n == |s.slots| {
      t := s;
    } else if s.slots[n].queue == [] {
      t := DrainsAll(s0, s, n + 1);
    } else {
      WorkOn(s0, s, DrainStart(n));
      var s1 := DrainsSlot(s0, Apply(AlwaysDrain, s, DrainStart(n)));
      t := DrainsAll(s0, s1, n + 1);
    }
  }

  /** From every reachable state in which no call is under way, the worker alone
      delivers every frame that was accepted, in the order of acceptance. */
  lemma EveryFrameDelivered(s: State) returns (t: State)
    requires Reachable(AlwaysDrain, s) && Quiet(s)
    ensures Leads(WorkerNext(), s, t) && |t.slots| == |s.slots|
    ensures forall k :: 0 <= k < |s.slots| ==> t.slots[k].delivered == s.slots[k].accepted && t.slots[k].queue == []
  {
    WakeupsNotLost(s);
    LeadsNowhere(WorkerNext(), s);
    var s1 := s;
    if s.pending != [] {
      WorkOn(s, s, WakeUp);
      s1 := TakesTokens(s, Apply(AlwaysDrain, s, WakeUp));
    }
    t := DrainsAll(s, s1, 0);
    forall k | 0 <= k < |s.slots| ensures t.slots[k].delivered == s.slots[k].accepted {
      FramesAccounted(s, k);
      assert Drained(s.slots[k], t.slots[k]);
      assert t.slots[k].delivered + [] == t.slots[k].delivered;
    }
  }

  // ----- a token must not be dropped without a drain --------------------------

  lemma ReachableStep(p: Policy, s: State, step: Step, s': State)
    requires Reachable(p, s) && Enabled(p, s, step) && s' == Apply(p, s, step)
    ensures Reachable(p, s')
  {
    LeadsOn(Next(p), INIT, s, step);
  }

  /** One publisher, one slot: frame 5 was delivered by a drain that started
      before the publisher swapped the flag. */
  function DeliveredEarly(c: Call, flag: bool, pending: seq<nat>, wakePending: bool, wake: bool,
                          w: WorkerPc, batch: set<nat>): State
  {
    State(pending, wakePending, wake, [Slot([], flag, 0, [5], [5])], [Idle, c], w, batch)
  }

  lemma QueuedBeforeFlag()
    ensures Reachable(MaySkip, FrameQueued())
  {
    var p := MaySkip;
    LeadsNowhere(Next(p), INIT);
    var s1 := INIT.(calls := [Idle, Idle]);
    assert INIT.calls + [Idle] == s1.calls;
    ReachableStep(p, INIT, NewPublisher, s1);
    var s2 := s1.(slots := [Slot([], false, 0, [], [])]);
    assert s1.slots + [Slot([], false, 0, [], [])] == s2.slots;
    ReachableStep(p, s1, NewSlot, s2);
    FirstFrame(s2);
  }

  lemma FirstFrame(s2: State)
    requires s2 == INIT.(calls := [Idle, Idle], slots := [Slot([], false, 0, [], [])]) && Reachable(MaySkip, s2)
    ensures Reachable(MaySkip, FrameQueued())
  {
    var p := MaySkip;
    var s3 := s2.(slots := [Slot([], false, 1, [], [])], calls := [Idle, Counted(0, 5)]);
    assert Apply(p, s2, PushCount(1, 0, 5)).slots == s3.slots;
    ReachableStep(p, s2, PushCount(1, 0, 5), s3);
    assert s3.slots[0].queue + [5] == [5];
    var s4 := FrameQueued();
    assert Apply(p, s3, PushQueue(1)).slots == s4.slots;
    ReachableStep(p, s3, PushQueue(1), s4);
  }

  /** Frame 5 is queued; its publisher has not yet swapped the flag. */
  function FrameQueued(): State {
    State([], false, false, [Slot([5], false, 1, [5], [])], [Idle, Queued(0)], Polling, {})
  }

  lemma DrainedBeforeFlag()
    ensures Reachable(MaySkip, DeliveredEarly(Queued(0), false, [], false, false, Polling, {}))
  {
    var p := MaySkip;
    var s4 := FrameQueued();
    QueuedBeforeFlag();
    var s5 := s4.(worker := SlotPop(0, 0));
    assert s4.batch - {0} == {};
    assert Apply(p, s4, DrainStart(0)).slots == s5.slots;
    ReachableStep(p, s4, DrainStart(0), s5);
    var s6 := s5.(slots := [Slot([], false, 1, [5], [5])], worker := SlotPop(0, 1));
    assert s5.slots[0].queue[1..] == [] && s5.slots[0].delivered + [5] == [5];
    assert Apply(p, s5, DrainPop).slots == s6.slots;
    ReachableStep(p, s5, DrainPop, s6);
    DrainFinished(s6);
  }

  /** The drain that popped frame 5 and has not yet subtracted it. */
  function FramePopped(): State {
    State([], false, false, [Slot([], false, 1, [5], [5])], [Idle, Queued(0)], SlotPop(0, 1), {})
  }

  lemma DrainFinished(s6: State)
    requires s6 == FramePopped() && Reachable(MaySkip, s6)
    ensures Reachable(MaySkip, DeliveredEarly(Queued(0), false, [], false, false, Polling, {}))
  {
    var p := MaySkip;
    var s7 := s6.(worker := SlotSub(0, 1));
    ReachableStep(p, s6, DrainStop, s7);
    var s8 := DeliveredEarly(Queued(0), false, [], false, false, SlotCheck(0), {});
    ReachableStep(p, s7, DrainSub, s8);
    ReachableStep(p, s8, DrainCheck, s8.(worker := Polling));
  }

  lemma TokenTakenForEmptySlot()
    ensures Reachable(MaySkip, DeliveredEarly(Idle, true, [], false, false, Polling, {0}))
  {
    var p := MaySkip;
    DrainedBeforeFlag();
    var s0 := DeliveredEarly(Queued(0), false, [], false, false, Polling, {});
    var s1 := DeliveredEarly(Token(0), true, [], false, false, Polling, {});
    ReachableStep(p, s0, PushFlag(1), s1);
    var s2 := DeliveredEarly(TokenPushed, true, [0], false, false, Polling, {});
    ReachableStep(p, s1, NotifyToken(1), s2);
    var s3 := DeliveredEarly(Waking, true, [0], true, false, Polling, {});
    ReachableStep(p, s2, NotifySwap(1), s3);
    var s4 := DeliveredEarly(Idle, true, [0], true, true, Polling, {});
    ReachableStep(p, s3, NotifyWake(1), s4);
    TokenTaken(s4);
  }

  lemma TokenTaken(s4: State)
    requires s4 == DeliveredEarly(Idle, true, [0], true, true, Polling, {}) && Reachable(MaySkip, s4)
    ensures Reachable(MaySkip, DeliveredEarly(Idle, true, [], false, false, Polling, {0}))
  {
    var p := MaySkip;
    var s5 := DeliveredEarly(Idle, true, [0], true, false, Popping, {});
    ReachableStep(p, s4, WakeUp, s5);
    var s6 := DeliveredEarly(Idle, true, [], true, false, Popping, {0});
    ReachableStep(p, s5, PopToken, s6);
    var s7 := DeliveredEarly(Idle, true, [], true, false, Storing, {0});
    ReachableStep(p, s6, PopNone, s7);
    var s8 := DeliveredEarly(Idle, true, [], false, false, Checking, {0});
    ReachableStep(p, s7, StoreFalse, s8);
    ReachableStep(p, s8, CheckEmpty, s8.(worker := Polling));
  }

  /** The worker drops that token because the queue is empty: the flag stays
      up, the next push notifies nobody, and its frame is stranded. */
  lemma SkippedDrainLosesWakeup() returns (s: State)
    ensures Reachable(MaySkip, s) && !NoLostWakeup(s)
  {
    var p := MaySkip;
    TokenTakenForEmptySlot();
    var s0 := DeliveredEarly(Idle, true, [], false, false, Polling, {0});
    var s1 := DeliveredEarly(Idle, true, [], false, false, Polling, {});
    assert s0.batch - {0} == {};
    ReachableStep(p, s0, SkipToken(0), s1);
    s := SecondFrameStranded(s1);
  }

  lemma SecondFrameStranded(s1: State) returns (s: State)
    requires s1 == DeliveredEarly(Idle, true, [], false, false, Polling, {}) && Reachable(MaySkip, s1)
    ensures Reachable(MaySkip, s) && !NoLostWakeup(s)
  {
    var p := MaySkip;
    var s2 := s1.(slots := [Slot([], true, 1, [5], [5])], calls := [Idle, Counted(0, 6)]);
    assert Apply(p, s1, PushCount(1, 0, 6)).slots == s2.slots;
    ReachableStep(p, s1, PushCount(1, 0, 6), s2);
    var s3 := s2.(slots := [Slot([6], true, 1, [5, 6], [5])], calls := [Idle, Queued(0)]);
    assert s2.slots[0].queue + [6] == [6] && s2.slots[0].accepted + [6] == [5, 6];
    assert Apply(p, s2, PushQueue(1)).slots == s3.slots;
    ReachableStep(p, s2, PushQueue(1), s3);
    s := s3.(calls := [Idle, Idle]);
    ReachableStep(p, s3, PushFlag(1), s);
    assert Quiet(s) && s.slots[0].queue != [];
  }

  /** No run loses a wake-up exactly when every token taken is drained. */
  lemma NoLossIffDrained(p: Policy)
    ensures (forall s :: Reachable(p, s) ==> NoLostWakeup(s)) <==> p.AlwaysDrain?
  {
    if p.AlwaysDrain? {
      forall s | Reachable(p, s) ensures NoLostWakeup(s) { WakeupsNotLost(s); }
    } else {
      var s := SkippedDrainLosesWakeup();
    }
  }
}
