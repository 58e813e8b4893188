/** Epoch-based reclamation: the participant list, the global epoch, the pin
    handshake and the collector, as interleaved atomic steps over sequentially
    consistent memory. A thread's index is its position in the participant
    list, counted from the oldest registration. */
module Ebr {
  import opened Common
  import opened Runs

  type Obj = nat

  const INACTIVE: nat := 0

  /** Where an object is in its life. `Retired` records who holds the garbage
      record and the epoch it was stamped with. */
  datatype Status = Live | Retired(owner: nat, epoch: nat) | Freed

  datatype Garbage = Garbage(obj: Obj, epoch: nat)

  /** The pin handshake: load the epoch, publish it, load again to validate;
      a failed validation retracts the published epoch and starts over. */
  datatype PinState =
    | Unpinned
    | Loaded(e: nat)
    | Published(e: nat)
    | Retracting
    | Pinned(e: nat)

  /** The collector: load the epoch, load the list head and walk it towards the
      oldest participant, try to advance the epoch, read it again, and drain. */
  datatype CollectState =
    | NotCollecting
    | EpochRead(g: nat)
    | Scanning(g: nat, left: nat)
    | ReadingSafe
    | Draining(left: nat)

  datatype Thread = Thread(
    local: nat,                // the published epoch, or INACTIVE
    pin: PinState,
    depth: nat,                // nested guards
    collect: CollectState,
    garbage: seq<Garbage>,
    held: set<Obj>,            // references read inside this pin
    stale: set<Obj>            // objects unlinked during this pin: still findable through older loads
  )

  /** `linked` holds what a load of a shared slot or table can find now. */
  datatype State = State(global: nat, threads: seq<Thread>, linked: set<Obj>, status: map<Obj, Status>)

  datatype Step =
    | Register
    | PinLoad(t: nat) | PinPublish(t: nat) | PinValidate(t: nat) | PinRetract(t: nat)
    | PinNested(t: nat) | Unpin(t: nat)
    | Publish(o: Obj) | Acquire(t: nat, o: Obj) | Unlink(os: set<Obj>) | Retire(t: nat, o: Obj)
    | CollectBegin(t: nat) | CollectHead(t: nat) | CollectScan(t: nat)
    | CollectAdvance(t: nat) | CollectSafe(t: nat) | CollectFree(t: nat)

  const INIT := State(1, [], {}, map[])

  function FreshThread(): Thread {
    Thread(INACTIVE, Unpinned, 0, NotCollecting, [], {}, {})
  }

  /** The binary search of `slice::partition_point` on `epoch + 2 <= safe`. */
  function PartitionPoint(g: seq<Garbage>, safe: nat, lo: nat, hi: nat): (k: nat)
    requires lo <= hi <= |g|
    ensures lo <= k <= hi
    decreases hi - lo
  {
    if lo == hi then lo
    else
      var mid := lo + (hi - lo) / 2;
      if g[mid].epoch + 2 <= safe then PartitionPoint(g, safe, mid + 1, hi)
      else PartitionPoint(g, safe, lo, mid)
  }

  ghost predicate Sorted(g: seq<Garbage>) {
    forall i, j :: 0 <= i < j < |g| ==> g[i].epoch <= g[j].epoch
  }

  /** On an epoch-sorted list the binary search finds exactly the eligible prefix. */
  lemma {:induction false} PartitionPointExact(g: seq<Garbage>, safe: nat, lo: nat, hi: nat)
    requires lo <= hi <= |g|
    requires Sorted(g)
    requires forall i :: 0 <= i < lo ==> g[i].epoch + 2 <= safe
    requires forall i :: hi <= i < |g| ==> safe < g[i].epoch + 2
    ensures forall i :: 0 <= i < |g| ==>
              (i < PartitionPoint(g, safe, lo, hi) <==> g[i].epoch + 2 <= safe)
    decreases hi - lo
  {
    if lo < hi {
      var mid := lo + (hi - lo) / 2;
      if g[mid].epoch + 2 <= safe {
        PartitionPointExact(g, safe, mid + 1, hi);
      } else {
        PartitionPointExact(g, safe, lo, mid);
      }
    }
  }

  // ----- steps -----------------------------------------------------------

  predicate ObjStatus(s: State, o: Obj, st: Status) {
    o in s.status && s.status[o] == st
  }

  /** Retiring waits for the unlink, except for the objects in `early`. */
  predicate Enabled(early: set<Obj>, s: State, step: Step) {
    match step
    case Register => true
    case Publish(o) => o !in s.status
    case Unlink(os) => os <= s.linked
    case PinLoad(t) => t < |s.threads| && s.threads[t].pin.Unpinned? && s.threads[t].collect.NotCollecting?
    case PinPublish(t) => t < |s.threads| && s.threads[t].pin.Loaded?
    case PinValidate(t) => t < |s.threads| && s.threads[t].pin.Published?
    case PinRetract(t) => t < |s.threads| && s.threads[t].pin.Retracting?
    case PinNested(t) => t < |s.threads| && s.threads[t].pin.Pinned? && s.threads[t].collect.NotCollecting?
    case Unpin(t) => t < |s.threads| && s.threads[t].pin.Pinned? && s.threads[t].collect.NotCollecting?
    case Acquire(t, o) =>
      t < |s.threads| && s.threads[t].pin.Pinned? && (o in s.linked || o in s.threads[t].stale)
    case Retire(t, o) =>
      t < |s.threads| && s.threads[t].collect.NotCollecting? && ObjStatus(s, o, Live) &&
      (o in early || o !in s.linked)
    case CollectBegin(t) =>
      t < |s.threads| && s.threads[t].collect.NotCollecting? &&
      (s.threads[t].pin.Unpinned? || s.threads[t].pin.Pinned?)
    case CollectHead(t) => t < |s.threads| && s.threads[t].collect.EpochRead?
    case CollectScan(t) =>
      t < |s.threads| && s.threads[t].collect.Scanning? && 0 < s.threads[t].collect.left <= |s.threads|
    case CollectAdvance(t) => t < |s.threads| && s.threads[t].collect.Scanning? && s.threads[t].collect.left == 0
    case CollectSafe(t) => t < |s.threads| && s.threads[t].collect.ReadingSafe?
    case CollectFree(t) =>
      t < |s.threads| && s.threads[t].collect.Draining? && s.threads[t].collect.left <= |s.threads[t].garbage|
  }

  function SetThread(s: State, t: nat, th: Thread): State
    requires t < |s.threads|
  {
    s.(threads := s.threads[t := th])
  }

  /** Unlinking leaves the objects findable for every thread already pinned. */
  function MarkStale(th: Thread, os: set<Obj>): Thread {
    if th.pin.Pinned? then th.(stale := th.stale + os) else th
  }

  function Apply(early: set<Obj>, s: State, step: Step): State
    requires Enabled(early, s, step)
  {
    match step
    case Register => s.(threads := s.threads + [FreshThread()])
    case Publish(o) => s.(linked := s.linked + {o}, status := s.status[o := Live])
    case Unlink(os) =>
      s.(threads := seq(|s.threads|, i requires 0 <= i < |s.threads| => MarkStale(s.threads[i], os)),
         linked := s.linked - os)
    case PinLoad(t) => SetThread(s, t, s.threads[t].(pin := Loaded(s.global)))
    case PinPublish(t) =>
      var th := s.threads[t];
      SetThread(s, t, th.(local := th.pin.e, pin := Published(th.pin.e)))
    case PinValidate(t) =>
      var th := s.threads[t];
      if s.global == th.pin.e then SetThread(s, t, th.(pin := Pinned(th.pin.e), depth := 1))
      else SetThread(s, t, th.(pin := Retracting))
    case PinRetract(t) => SetThread(s, t, s.threads[t].(local := INACTIVE, pin := Unpinned))
    case PinNested(t) => SetThread(s, t, s.threads[t].(depth := s.threads[t].depth + 1))
    case Unpin(t) =>
      var th := s.threads[t];
      if th.depth > 1 then SetThread(s, t, th.(depth := th.depth - 1))
      else SetThread(s, t, th.(depth := 0, local := INACTIVE, pin := Unpinned, held := {}, stale := {}))
    case Acquire(t, o) => SetThread(s, t, s.threads[t].(held := s.threads[t].held + {o}))
    case Retire(t, o) =>
      var th := s.threads[t];
      SetThread(s, t, th.(garbage := th.garbage + [Garbage(o, s.global)]))
        .(status := s.status[o := Retired(t, s.global)])
    case CollectBegin(t) => SetThread(s, t, s.threads[t].(collect := EpochRead(s.global)))
    case CollectHead(t) =>
      SetThread(s, t, s.threads[t].(collect := Scanning(s.threads[t].collect.g, |s.threads|)))
    case CollectScan(t) =>
      var c := s.threads[t].collect;
      var e := s.threads[c.left - 1].local;
      if e != INACTIVE && e < c.g then SetThread(s, t, s.threads[t].(collect := ReadingSafe))
      else SetThread(s, t, s.threads[t].(collect := Scanning(c.g, c.left - 1)))
    case CollectAdvance(t) =>
      var s' := SetThread(s, t, s.threads[t].(collect := ReadingSafe));
      if s.global == s.threads[t].collect.g then s'.(global := s.global + 1) else s'
    case CollectSafe(t) =>
      var g := s.threads[t].garbage;
      SetThread(s, t, s.threads[t].(collect := Draining(PartitionPoint(g, s.global, 0, |g|))))
    case CollectFree(t) =>
      var th := s.threads[t];
      if th.collect.left == 0 then SetThread(s, t, th.(collect := NotCollecting))
      else
        SetThread(s, t, th.(garbage := th.garbage[1..], collect := Draining(th.collect.left - 1)))
          .(status := s.status[th.garbage[0].obj := Freed])
  }

  /** The state after a step, where the step can be taken. */
  function Next(early: set<Obj>): (State, Step) -> Option<State> {
    (s, step) => if Enabled(early, s, step) then Some(Apply(early, s, step)) else None
  }

  // ----- the invariant ---------------------------------------------------

  ghost predicate PinInv(s: State, th: Thread) {
    match th.pin
    case Unpinned => th.local == INACTIVE
    case Loaded(e) => th.local == INACTIVE && 1 <= e <= s.global
    case Published(e) => th.local == e && 1 <= e <= s.global
    case Retracting => true
    case Pinned(e) => th.local == e && 1 <= e <= s.global <= e + 1 && th.depth >= 1
  }

  ghost predicate Behind(s: State, j: nat, g: nat)
    requires j < |s.threads|
  {
    s.threads[j].pin.Pinned? && s.threads[j].pin.e < g
  }

  /** A collector that read g and has passed every participant from `left` on
      knows, while the epoch is still g, that none of those is behind. */
  ghost predicate CollectInv(s: State, th: Thread) {
    match th.collect
    case NotCollecting => true
    case EpochRead(g) => g <= s.global
    case Scanning(g, left) =>
      && g <= s.global && left <= |s.threads|
      && (g == s.global ==> forall j :: left <= j < |s.threads| ==> !Behind(s, j, g))
    case ReadingSafe => true
    case Draining(left) =>
      && left <= |th.garbage|
      && forall i :: 0 <= i < left ==> th.garbage[i].epoch + 2 <= s.global
  }

  ghost predicate GarbageInv(s: State, t: nat)
    requires t < |s.threads|
  {
    var g := s.threads[t].garbage;
    && Sorted(g)
    && (forall i :: 0 <= i < |g| ==>
          g[i].epoch <= s.global && ObjStatus(s, g[i].obj, Retired(t, g[i].epoch)))
    && (forall i, j :: 0 <= i < j < |g| ==> g[i].obj != g[j].obj)
  }

  /** What a pinned thread can hold is linked, or was unlinked during the pin
      and carries no stamp older than the pin. */
  ghost predicate RefInv(s: State, th: Thread) {
    if th.pin.Pinned? then
      && (forall o <- th.stale :: o !in s.linked && o in s.status &&
            (s.status[o].Live? || (s.status[o].Retired? && th.pin.e <= s.status[o].epoch)))
      && (forall o <- th.held :: o in th.stale || o in s.linked)
    else
      th.held == {} && th.stale == {}
  }

  ghost predicate ThreadInv(s: State, t: nat)
    requires t < |s.threads|
  {
    && PinInv(s, s.threads[t])
    && CollectInv(s, s.threads[t])
    && GarbageInv(s, t)
    && RefInv(s, s.threads[t])
  }

  ghost predicate Inv(s: State) {
    && s.global >= 1
    && (forall o <- s.linked :: ObjStatus(s, o, Live))
    && forall t :: 0 <= t < |s.threads| ==> ThreadInv(s, t)
  }

  /** The property the design is for. */
  ghost predicate Safe(s: State) {
    forall t, o :: 0 <= t < |s.threads| && o in s.threads[t].held ==> !ObjStatus(s, o, Freed)
  }

  // ----- every step keeps the invariant -----------------------------------

  /** A step of thread u that moves no epoch and no object, and puts nobody
      behind, leaves every other thread's invariant alone. */
  lemma OthersKept(s: State, s': State, u: nat)
    requires Inv(s)
    requires s'.global == s.global && s'.linked == s.linked && s'.status == s.status
    requires u < |s'.threads| && |s.threads| <= |s'.threads|
    requires forall t :: 0 <= t < |s'.threads| && t != u ==> t < |s.threads| && s'.threads[t] == s.threads[t]
    requires Behind(s', u, s.global) ==> u < |s.threads| && Behind(s, u, s.global)
    ensures forall t :: 0 <= t < |s'.threads| && t != u ==> ThreadInv(s', t)
  {
    forall t | 0 <= t < |s'.threads| && t != u ensures ThreadInv(s', t) {
      var th := s'.threads[t];
      assert t < |s.threads| && th == s.threads[t];
      assert ThreadInv(s, t);
      forall j | 0 <= j < |s'.threads| && Behind(s', j, s.global)
        ensures j < |s.threads| && Behind(s, j, s.global) {}
    }
  }

  lemma StepRegister(s: State)
    requires Inv(s)
    ensures Inv(Apply({}, s, Register))
  {
    OthersKept(s, Apply({}, s, Register), |s.threads|);
  }

  lemma StepPin(s: State, step: Step)
    requires Inv(s) && Enabled({}, s, step)
    requires step.PinLoad? || step.PinPublish? || step.PinValidate? || step.PinRetract? ||
             step.PinNested? || step.Unpin? || step.Acquire?
    ensures Inv(Apply({}, s, step))
  {
    var s' := Apply({}, s, step);
    assert ThreadInv(s, step.t);
    OthersKept(s, s', step.t);
    forall j | 0 <= j < |s'.threads| && Behind(s', j, s.global) ensures Behind(s, j, s.global) {}
    assert CollectInv(s', s'.threads[step.t]);
    assert GarbageInv(s', step.t);
    assert RefInv(s', s'.threads[step.t]);
  }

  lemma StepObjects(s: State, step: Step)
    requires Inv(s) && Enabled({}, s, step)
    requires step.Publish? || step.Unlink?
    ensures Inv(Apply({}, s, step))
  {
    var s' := Apply({}, s, step);
    forall t | 0 <= t < |s'.threads| ensures ThreadInv(s', t) {
      assert ThreadInv(s, t);
      forall j | 0 <= j < |s'.threads| && s'.threads[t].collect.Scanning? &&
                 s'.threads[t].collect.g == s'.global && s'.threads[t].collect.left <= j
        ensures !Behind(s', j, s'.global)
      {
        assert !Behind(s, j, s.global);
      }
    }
  }

  lemma RetireThread(s: State, step: Step, t: nat)
    requires Inv(s) && Enabled({}, s, step) && step.Retire? && t < |s.threads|
    ensures |Apply({}, s, step).threads| == |s.threads| && ThreadInv(Apply({}, s, step), t)
  {
    var s' := Apply({}, s, step);
    assert ThreadInv(s, t);
    forall j | 0 <= j < |s'.threads| && s'.threads[t].collect.Scanning? &&
               s'.threads[t].collect.g == s'.global && s'.threads[t].collect.left <= j
      ensures !Behind(s', j, s'.global)
    {
      assert !Behind(s, j, s.global);
    }
  }

  lemma StepRetire(s: State, step: Step)
    requires Inv(s) && Enabled({}, s, step) && step.Retire?
    ensures Inv(Apply({}, s, step))
  {
    var s' := Apply({}, s, step);
    forall t | 0 <= t < |s'.threads| ensures ThreadInv(s', t) {
      RetireThread(s, step, t);
    }
  }

  /** Advancing is sound: the whole list was passed, so every pinned thread is at g. */
  lemma StepAdvance(s: State, step: Step)
    requires Inv(s) && Enabled({}, s, step) && step.CollectAdvance?
    ensures Inv(Apply({}, s, step))
  {
    var s' := Apply({}, s, step);
    assert ThreadInv(s, step.t);
    forall t | 0 <= t < |s'.threads| ensures ThreadInv(s', t) {
      assert ThreadInv(s, t);
      if s'.global != s.global {
        assert !Behind(s, t, s.global);
      }
      forall j | 0 <= j < |s'.threads| && s'.threads[t].collect.Scanning? &&
                 s'.threads[t].collect.g == s'.global && s'.threads[t].collect.left <= j
        ensures !Behind(s', j, s'.global)
      {
        assert !Behind(s, j, s.global);
      }
    }
  }

  lemma StepCollectStart(s: State, step: Step)
    requires Inv(s) && Enabled({}, s, step)
    requires step.CollectBegin? || step.CollectHead? || step.CollectSafe?
    ensures Inv(Apply({}, s, step))
  {
    var s' := Apply({}, s, step);
    var th := s.threads[step.t];
    assert ThreadInv(s, step.t);
    OthersKept(s, s', step.t);
    if step.CollectSafe? {
      PartitionPointExact(th.garbage, s.global, 0, |th.garbage|);
    }
    assert CollectInv(s', s'.threads[step.t]);
    assert GarbageInv(s', step.t);
    assert RefInv(s', s'.threads[step.t]);
  }

  lemma StepCollectScan(s: State, step: Step)
    requires Inv(s) && Enabled({}, s, step) && step.CollectScan?
    ensures Inv(Apply({}, s, step))
  {
    var s' := Apply({}, s, step);
    var th := s.threads[step.t];
    assert ThreadInv(s, step.t);
    OthersKept(s, s', step.t);
    assert CollectInv(s', s'.threads[step.t]) by {
      assert ThreadInv(s, th.collect.left - 1);
      forall j | 0 <= j < |s'.threads| && Behind(s', j, s.global) ensures Behind(s, j, s.global) {}
    }
    assert GarbageInv(s', step.t);
    assert RefInv(s', s'.threads[step.t]);
  }

  /** A freed object is stamped two epochs back, so no pin can still reach it. */
  lemma StepFree(s: State, step: Step)
    requires Inv(s) && Enabled({}, s, step) && step.CollectFree?
    ensures Inv(Apply({}, s, step))
  {
    var s' := Apply({}, s, step);
    var u := step.t;
    assert ThreadInv(s, u);
    if s.threads[u].collect.left == 0 {
      OthersKept(s, s', u);
      assert GarbageInv(s', u);
    } else {
      var dead := s.threads[u].garbage[0];
      assert ObjStatus(s, dead.obj, Retired(u, dead.epoch));
      forall t | 0 <= t < |s'.threads| ensures ThreadInv(s', t) {
        assert ThreadInv(s, t);
        FreeKeepsCollect(s, s', u, t);
        FreeKeepsRefs(s, s', dead, u, t);
        FreeKeepsGarbage(s, s', dead, u, t);
      }
    }
  }

  ghost predicate FreeStep(s: State, s': State, u: nat) {
    && Inv(s) && u < |s.threads| && s.threads[u].collect.Draining?
    && 0 < s.threads[u].collect.left <= |s.threads[u].garbage|
    && s' == Apply({}, s, CollectFree(u))
  }

  lemma FreeKeepsCollect(s: State, s': State, u: nat, t: nat)
    requires FreeStep(s, s', u) && t < |s.threads| && ThreadInv(s, t)
    ensures CollectInv(s', s'.threads[t])
  {
    forall j | 0 <= j < |s'.threads| && Behind(s', j, s.global) ensures Behind(s, j, s.global) {}
  }

  lemma FreeKeepsRefs(s: State, s': State, dead: Garbage, u: nat, t: nat)
    requires FreeStep(s, s', u) && t < |s.threads| && ThreadInv(s, t) && ThreadInv(s, u)
    requires dead == s.threads[u].garbage[0]
    ensures RefInv(s', s'.threads[t])
  {
    assert dead.epoch + 2 <= s.global;
    assert dead.obj !in s.threads[t].stale;
    assert dead.obj !in s.linked;
  }

  lemma FreeKeepsGarbage(s: State, s': State, dead: Garbage, u: nat, t: nat)
    requires FreeStep(s, s', u) && t < |s.threads| && ThreadInv(s, t) && ThreadInv(s, u)
    requires dead == s.threads[u].garbage[0]
    ensures GarbageInv(s', t)
  {
    var g := s.threads[t].garbage;
    var g' := s'.threads[t].garbage;
    if t == u {
      assert forall i :: 0 <= i < |g'| ==> g'[i] == g[i + 1];
    }
    forall i | 0 <= i < |g'| ensures ObjStatus(s', g'[i].obj, Retired(t, g'[i].epoch)) {
      var k := if t == u then i + 1 else i;
      assert ObjStatus(s, g[k].obj, Retired(t, g[k].epoch));
    }
  }

  lemma StepKeepsInv(s: State, step: Step)
    requires Inv(s) && Enabled({}, s, step)
    ensures Inv(Apply({}, s, step))
  {
    match step
    case Publish(_) => StepObjects(s, step);
    case Unlink(_) => StepObjects(s, step);
    case Retire(_, _) => StepRetire(s, step);
    case CollectAdvance(_) => StepAdvance(s, step);
    case CollectFree(_) => StepFree(s, step);
    case CollectBegin(_) => StepCollectStart(s, step);
    case CollectHead(_) => StepCollectStart(s, step);
    case CollectScan(_) => StepCollectScan(s, step);
    case CollectSafe(_) => StepCollectStart(s, step);
    case Register => StepRegister(s);
    case _ => StepPin(s, step);
  }

  lemma RunKeepsInv(s: State, s': State)
    requires Inv(s) && Leads(Next({}), s, s')
    ensures Inv(s')
  {
    forall x, step | Inv(x) && Enabled({}, x, step) ensures Inv(Apply({}, x, step)) {
      StepKeepsInv(x, step);
    }
    LeadsKeeps(Next({}), Inv, s, s');
  }

  // ----- what every run guarantees -----------------------------------------

  ghost predicate Reachable(early: set<Obj>, s: State) {
    Leads(Next(early), INIT, s)
  }

  lemma ReachableInv(s: State)
    requires Reachable({}, s)
    ensures Inv(s)
  {
    RunKeepsInv(INIT, s);
  }

  /** A validated pin holds the global epoch in {e, e + 1} until it ends. */
  lemma PinHoldsEpoch(s: State, t: nat)
    requires Reachable({}, s) && t < |s.threads| && s.threads[t].pin.Pinned?
    ensures s.threads[t].local == s.threads[t].pin.e
    ensures s.global == s.threads[t].pin.e || s.global == s.threads[t].pin.e + 1
  {
    ReachableInv(s);
    assert ThreadInv(s, t);
  }

  /** In every run that unlinks before it retires, nothing a pinned thread
      holds has been freed. */
  lemma ReclamationSafe(s: State)
    requires Reachable({}, s)
    ensures Safe(s)
  {
    ReachableInv(s);
    forall t, o | 0 <= t < |s.threads| && o in s.threads[t].held ensures !ObjStatus(s, o, Freed) {
      assert ThreadInv(s, t);
    }
  }

  /** What one collection frees is exactly its thread's garbage that is two
      epochs old, oldest first. */
  lemma CollectFreesEligiblePrefix(s: State, t: nat)
    requires Reachable({}, s) && Enabled({}, s, CollectSafe(t))
    ensures Sorted(s.threads[t].garbage)
    ensures var s' := Apply({}, s, CollectSafe(t));
            && s'.threads[t].collect.Draining?
            && forall i :: 0 <= i < |s.threads[t].garbage| ==>
                 (i < s'.threads[t].collect.left <==> s.threads[t].garbage[i].epoch + 2 <= s.global)
  {
    ReachableInv(s);
    assert ThreadInv(s, t);
    var g := s.threads[t].garbage;
    PartitionPointExact(g, s.global, 0, |g|);
  }

  /** Each object is freed at most once: what a drain step frees was retired,
      by this thread, and no other garbage record names it. */
  lemma FreedOnce(s: State, t: nat, u: nat, i: nat)
    requires Reachable({}, s) && Enabled({}, s, CollectFree(t))
    requires s.threads[t].collect.left > 0
    requires u < |s.threads| && i < |s.threads[u].garbage| && (u, i) != (t, 0)
    ensures ObjStatus(s, s.threads[t].garbage[0].obj, Retired(t, s.threads[t].garbage[0].epoch))
    ensures s.threads[u].garbage[i].obj != s.threads[t].garbage[0].obj
  {
    ReachableInv(s);
    assert ThreadInv(s, t) && ThreadInv(s, u);
    assert ObjStatus(s, s.threads[u].garbage[i].obj, Retired(u, s.threads[u].garbage[i].epoch));
  }

  // ----- a collection that nothing disturbs -----------------------------------------

  /** The steps of thread t's own collection. */
  predicate CollectStep(step: Step, t: nat) {
    step == CollectBegin(t) || step == CollectHead(t) || step == CollectScan(t) || step == CollectAdvance(t) ||
    step == CollectSafe(t) || step == CollectFree(t)
  }

  function CollectNext(t: nat): (State, Step) -> Option<State> {
    (s, step) => if Enabled({}, s, step) && CollectStep(step, t) then Some(Apply({}, s, step)) else None
  }

  /** Every pinned thread has the current epoch. */
  predicate CaughtUp(s: State) {
    forall u :: 0 <= u < |s.threads| ==> !Lags(s, u)
  }

  lemma CollectsOn(t: nat, s0: State, s: State, step: Step)
    requires Leads(CollectNext(t), s0, s) && Enabled({}, s, step) && CollectStep(step, t)
    ensures Leads(CollectNext(t), s0, Apply({}, s, step))
  {
    LeadsOn(CollectNext(t), s0, s, step);
  }

  function Collecting(s: State, t: nat, c: CollectState): State
    requires t < |s.threads|
  {
    SetThread(s, t, s.threads[t].(collect := c))
  }

  predicate Lags(s: State, u: nat)
    requires u < |s.threads|
  {
    s.threads[u].local != INACTIVE && s.threads[u].local < s.global
  }

  lemma ScanOnce(s: State, t: nat, left: nat)
    requires t < |s.threads| && 0 < left <= |s.threads|
    ensures var c := Collecting(s, t, Scanning(s.global, left));
            && Enabled({}, c, CollectScan(t))
            && Apply({}, c, CollectScan(t)) ==
                 Collecting(s, t, if Lags(s, left - 1) then ReadingSafe else Scanning(s.global, left - 1))
  {
    var c := Collecting(s, t, Scanning(s.global, left));
    assert c.threads[left - 1].local == s.threads[left - 1].local;
    Overwritten(s.threads, t, c.threads[t]);
  }

  lemma Overwritten(threads: seq<Thread>, t: nat, th: Thread)
    requires t < |threads|
    ensures forall x {:trigger threads[t := x]} :: threads[t := th][t := x] == threads[t := x]
  {
  }

  lemma AdvanceOnce(s: State, t: nat)
    requires t < |s.threads|
    ensures var c := Collecting(s, t, Scanning(s.global, 0));
            && Enabled({}, c, CollectAdvance(t))
            && Apply({}, c, CollectAdvance(t)) == Collecting(s, t, ReadingSafe).(global := s.global + 1)
  {
    Overwritten(s.threads, t, Collecting(s, t, Scanning(s.global, 0)).threads[t]);
  }

  /** The scan of the threads stops at one that lags behind, or goes on to the end. */
  lemma {:induction false} ScanLeads(t: nat, s0: State, s: State, left: nat)
    requires t < |s.threads| && left <= |s.threads|
    requires Leads(CollectNext(t), s0, Collecting(s, t, Scanning(s.global, left)))
    requires forall i :: left <= i < |s.threads| ==> !Lags(s, i)
    ensures Leads(CollectNext(t), s0, Scanned(s, t))
    decreases left
  {
    var c := Collecting(s, t, Scanning(s.global, left));
    if left == 0 {
      AdvanceOnce(s, t);
      CollectsOn(t, s0, c, CollectAdvance(t));
      assert CaughtUp(s);
    } else {
      ScanOnce(s, t, left);
      CollectsOn(t, s0, c, CollectScan(t));
      if !Lags(s, left - 1) {
        ScanLeads(t, s0, s, left - 1);
      }
    }
  }

  /** After the scan: the epoch is raised if nobody lags behind. */
  function Scanned(s: State, t: nat): State
    requires t < |s.threads|
  {
    Collecting(s, t, ReadingSafe).(global := if CaughtUp(s) then s.global + 1 else s.global)
  }

  /** The first k records are freed. */
  function FreedStatus(status: map<Obj, Status>, g: seq<Garbage>, k: nat): map<Obj, Status>
    requires k <= |g|
    decreases k
  {
    if k == 0 then status else FreedStatus(status[g[0].obj := Freed], g[1..], k - 1)
  }

  lemma {:induction false} FreedStatusMeans(status: map<Obj, Status>, g: seq<Garbage>, k: nat, o: Obj)
    requires k <= |g|
    ensures o in FreedStatus(status, g, k) <==> o in status || exists i :: 0 <= i < k && g[i].obj == o
    ensures o in FreedStatus(status, g, k) ==>
              FreedStatus(status, g, k)[o] == if exists i :: 0 <= i < k && g[i].obj == o then Freed else status[o]
    decreases k
  {
    if k > 0 {
      FreedStatusMeans(status[g[0].obj := Freed], g[1..], k - 1, o);
      assert forall i :: 0 < i < k ==> g[i] == g[1..][i - 1];
      assert forall i :: 0 <= i < k - 1 ==> g[1..][i] == g[i + 1];
    }
  }

  /** After the drain: the records are freed, in order. */
  function AfterDrain(s: State, t: nat): State
    requires t < |s.threads| && s.threads[t].collect.Draining? && s.threads[t].collect.left <= |s.threads[t].garbage|
  {
    var th := s.threads[t];
    SetThread(s, t, th.(garbage := th.garbage[th.collect.left..], collect := NotCollecting))
      .(status := FreedStatus(s.status, th.garbage, th.collect.left))
  }

  lemma DrainOnce(s: State, t: nat)
    requires t < |s.threads| && s.threads[t].collect.Draining? && s.threads[t].collect.left <= |s.threads[t].garbage|
    ensures var s' := Apply({}, s, CollectFree(t));
            if s.threads[t].collect.left == 0 then s' == AfterDrain(s, t)
            else s'.threads[t].collect == Draining(s.threads[t].collect.left - 1) &&
                 s'.threads[t].collect.left <= |s'.threads[t].garbage| && AfterDrain(s', t) == AfterDrain(s, t)
  {
    var th := s.threads[t];
    if th.collect.left == 0 {
      assert th.garbage[0..] == th.garbage;
    } else {
      assert th.garbage[1..][th.collect.left - 1..] == th.garbage[th.collect.left..];
      Overwritten(s.threads, t, Apply({}, s, CollectFree(t)).threads[t]);
    }
  }

  /** The drain goes on until its records are freed. */
  lemma {:induction false} DrainLeads(t: nat, s0: State, s: State)
    requires t < |s.threads| && s.threads[t].collect.Draining? && s.threads[t].collect.left <= |s.threads[t].garbage|
    requires Leads(CollectNext(t), s0, s)
    ensures Leads(CollectNext(t), s0, AfterDrain(s, t))
    decreases s.threads[t].collect.left
  {
    DrainOnce(s, t);
    CollectsOn(t, s0, s, CollectFree(t));
    if s.threads[t].collect.left > 0 {
      DrainLeads(t, s0, Apply({}, s, CollectFree(t)));
    }
  }

  /**
   * A collection that nothing disturbs raises the epoch exactly if every
   * pinned thread has caught up, and then frees exactly the records of its
   * thread that are two epochs old; everything else stays.
   */
  lemma LoneCollection(s: State, t: nat) returns (u: State, k: nat)
    requires Reachable({}, s) && Enabled({}, s, CollectBegin(t))
    ensures Leads(CollectNext(t), s, u)
    ensures u.global == if CaughtUp(s) then s.global + 1 else s.global
    ensures u.linked == s.linked && |u.threads| == |s.threads|
    ensures u.threads == s.threads[t := s.threads[t].(garbage := u.threads[t].garbage)]
    ensures EligiblePrefix(s.threads[t].garbage, u.global, k) && FreesPrefix(s, u, t, k)
  {
    ReachableInv(s);
    assert ThreadInv(s, t);
    BeginLeads(s, t);
    var s1 := Scanned(s, t);
    u, k := DrainsEligible(t, s, s1);
    Overwritten(s.threads, t, s1.threads[t]);
  }

  lemma BeginLeads(s: State, t: nat)
    requires Enabled({}, s, CollectBegin(t))
    ensures Leads(CollectNext(t), s, Scanned(s, t))
  {
    LeadsNowhere(CollectNext(t), s);
    CollectsOn(t, s, s, CollectBegin(t));
    var s1 := Collecting(s, t, EpochRead(s.global));
    CollectsOn(t, s, s1, CollectHead(t));
    Overwritten(s.threads, t, s1.threads[t]);
    assert Apply({}, s1, CollectHead(t)) == Collecting(s, t, Scanning(s.global, |s.threads|));
    ScanLeads(t, s, s, |s.threads|);
  }

  /** The first k records are those that are two epochs old. */
  ghost predicate EligiblePrefix(g: seq<Garbage>, global: nat, k: nat) {
    k <= |g| && forall i :: 0 <= i < |g| ==> (i < k <==> g[i].epoch + 2 <= global)
  }

  /** From s to u thread t has freed its first k records, and nobody anything else. */
  ghost predicate FreesPrefix(s: State, u: State, t: nat, k: nat)
    requires t < |s.threads| && t < |u.threads|
  {
    var g := s.threads[t].garbage;
    && k <= |g| && u.threads[t].garbage == g[k..]
    && (forall o :: o in u.status <==> o in s.status || exists i :: 0 <= i < k && g[i].obj == o)
    && forall o :: o in u.status ==>
         u.status[o] == if exists i :: 0 <= i < k && g[i].obj == o then Freed else s.status[o]
  }

  lemma DrainsEligible(t: nat, s0: State, s: State) returns (u: State, k: nat)
    requires t < |s.threads| && s.threads[t].collect.ReadingSafe? && Leads(CollectNext(t), s0, s)
    requires Sorted(s.threads[t].garbage)
    ensures Leads(CollectNext(t), s0, u) && u.global == s.global && u.linked == s.linked && |u.threads| == |s.threads|
    ensures u.threads == s.threads[t := s.threads[t].(garbage := u.threads[t].garbage, collect := NotCollecting)]
    ensures EligiblePrefix(s.threads[t].garbage, s.global, k) && FreesPrefix(s, u, t, k)
  {
    var g := s.threads[t].garbage;
    k := PartitionPoint(g, s.global, 0, |g|);
    PartitionPointExact(g, s.global, 0, |g|);
    CollectsOn(t, s0, s, CollectSafe(t));
    var s1 := Collecting(s, t, Draining(k));
    assert Apply({}, s, CollectSafe(t)) == s1;
    DrainLeads(t, s0, s1);
    u := AfterDrain(s1, t);
    Overwritten(s.threads, t, s1.threads[t]);
    forall o {
      FreedStatusMeans(s.status, g, k, o);
    }
  }

  // ----- nested pins --------------------------------------------------------------------

  /** A pin of depth d survives fewer than d unpins, with all it holds, and the d-th ends it. */
  lemma {:induction false} PinSurvives(early: set<Obj>, s: State, t: nat, n: nat)
    requires t < |s.threads| && s.threads[t].pin.Pinned? && s.threads[t].collect.NotCollecting?
    requires 0 < n <= s.threads[t].depth
    ensures var th := s.threads[t];
            var r := Run(Next(early), s, seq(n, _ => Unpin(t)));
            && r.Some? && |r.value.threads| == |s.threads|
            && (n < th.depth ==> r.value == SetThread(s, t, th.(depth := th.depth - n)))
            && (n == th.depth ==> r.value.threads[t].pin.Unpinned? && r.value.threads[t].local == INACTIVE &&
                                  r.value.threads[t].held == {})
    decreases n
  {
    var steps, th := seq(n, _ => Unpin(t)), s.threads[t];
    assert steps[1..] == seq(n - 1, _ => Unpin(t));
    var s' := Apply(early, s, Unpin(t));
    if n > 1 {
      PinSurvives(early, s', t, n - 1);
      assert s'.threads[t := th.(depth := th.depth - n)] == s.threads[t := th.(depth := th.depth - n)];
    }
  }

  /** Pins that are nested and undone leave the pin as it was. */
  lemma {:induction false} NestedPinsUndone(early: set<Obj>, s: State, t: nat, n: nat)
    requires t < |s.threads| && s.threads[t].pin.Pinned? && s.threads[t].collect.NotCollecting?
    requires s.threads[t].depth >= 1
    ensures Run(Next(early), s, seq(n, _ => PinNested(t)) + seq(n, _ => Unpin(t))) == Some(s)
  {
    NestsDeeper(early, s, t, n);
    var th := s.threads[t];
    var u := SetThread(s, t, th.(depth := th.depth + n));
    RunConcat(Next(early), s, seq(n, _ => PinNested(t)), seq(n, _ => Unpin(t)));
    if n > 0 {
      PinSurvives(early, u, t, n);
      assert u.threads[t := th] == s.threads;
    } else {
      assert u.threads == s.threads;
    }
  }

  lemma {:induction false} NestsDeeper(early: set<Obj>, s: State, t: nat, n: nat)
    requires t < |s.threads| && s.threads[t].pin.Pinned? && s.threads[t].collect.NotCollecting?
    ensures Run(Next(early), s, seq(n, _ => PinNested(t))) ==
            Some(SetThread(s, t, s.threads[t].(depth := s.threads[t].depth + n)))
    decreases n
  {
    var steps, th := seq(n, _ => PinNested(t)), s.threads[t];
    if n == 0 {
      assert s.threads[t := th] == s.threads;
    } else {
      assert steps[1..] == seq(n - 1, _ => PinNested(t));
      var s' := Apply(early, s, PinNested(t));
      NestsDeeper(early, s', t, n - 1);
      assert s'.threads[t := th.(depth := th.depth + n)] == s.threads[t := th.(depth := th.depth + n)];
    }
  }

  // ----- the order matters --------------------------------------------------

  lemma ReachableStep(early: set<Obj>, s: State, step: Step)
    requires Reachable(early, s) && Enabled(early, s, step)
    ensures Reachable(early, Apply(early, s, step))
  {
    LeadsOn(Next(early), INIT, s, step);
  }

  /** One thread's full pin. */
  lemma ReachablePin(early: set<Obj>, s: State, t: nat)
    requires Reachable(early, s) && Enabled(early, s, PinLoad(t))
    ensures Reachable(early, SetThread(s, t, s.threads[t].(local := s.global, pin := Pinned(s.global), depth := 1)))
  {
    var s1 := Apply(early, s, PinLoad(t));
    ReachableStep(early, s, PinLoad(t));
    var s2 := Apply(early, s1, PinPublish(t));
    ReachableStep(early, s1, PinPublish(t));
    ReachableStep(early, s2, PinValidate(t));
    var th := s.threads[t].(local := s.global, pin := Pinned(s.global), depth := 1);
    assert Apply(early, s2, PinValidate(t)).threads == s.threads[t := th];
  }

  function WithCollect(s: State, t: nat, c: CollectState): State
    requires t < |s.threads|
  {
    SetThread(s, t, s.threads[t].(collect := c))
  }

  lemma ReachableCollect(early: set<Obj>, s: State, t: nat, c: CollectState, step: Step, c': CollectState)
    requires t < |s.threads| && Reachable(early, WithCollect(s, t, c))
    requires Enabled(early, WithCollect(s, t, c), step)
    requires Apply(early, WithCollect(s, t, c), step) == WithCollect(WithCollect(s, t, c), t, c')
    ensures Reachable(early, WithCollect(s, t, c'))
  {
    ReachableStep(early, WithCollect(s, t, c), step);
    assert WithCollect(WithCollect(s, t, c), t, c').threads == WithCollect(s, t, c').threads;
  }

  lemma ReachableScan(early: set<Obj>, s: State, t: nat, left: nat)
    requires t < |s.threads| && 0 < left <= |s.threads|
    requires s.threads[left - 1].local == INACTIVE || s.threads[left - 1].local >= s.global
    requires Reachable(early, WithCollect(s, t, Scanning(s.global, left)))
    ensures Reachable(early, WithCollect(s, t, Scanning(s.global, left - 1)))
  {
    var s1 := WithCollect(s, t, Scanning(s.global, left));
    assert s1.threads[left - 1].local == s.threads[left - 1].local;
    ReachableCollect(early, s, t, Scanning(s.global, left), CollectScan(t), Scanning(s.global, left - 1));
  }

  /** A collection by t over two participants, none of them behind, up to and
      including the read of the safe epoch. */
  lemma ReachableAdvance(early: set<Obj>, s: State, t: nat)
    requires Reachable(early, s) && Enabled(early, s, CollectBegin(t)) && |s.threads| == 2
    requires forall j :: 0 <= j < 2 ==> s.threads[j].local == INACTIVE || s.threads[j].local >= s.global
    ensures var g := s.threads[t].garbage;
            Reachable(early, WithCollect(s, t, Draining(PartitionPoint(g, s.global + 1, 0, |g|)))
                           .(global := s.global + 1))
  {
    var g := s.global;
    assert WithCollect(s, t, NotCollecting).threads == s.threads;
    ReachableCollect(early, s, t, NotCollecting, CollectBegin(t), EpochRead(g));
    ReachableCollect(early, s, t, EpochRead(g), CollectHead(t), Scanning(g, 2));
    ReachableScan(early, s, t, 2);
    ReachableScan(early, s, t, 1);
    ReachableBump(early, s, t);
  }

  lemma ReachableBump(early: set<Obj>, s: State, t: nat)
    requires t < |s.threads| && Reachable(early, WithCollect(s, t, Scanning(s.global, 0)))
    ensures var g := s.threads[t].garbage;
            Reachable(early, WithCollect(s, t, Draining(PartitionPoint(g, s.global + 1, 0, |g|)))
                           .(global := s.global + 1))
  {
    var s4 := WithCollect(s, t, Scanning(s.global, 0));
    ReachableStep(early, s4, CollectAdvance(t));
    var s5 := s.(global := s.global + 1);
    assert Apply(early, s4, CollectAdvance(t)).threads == WithCollect(s5, t, ReadingSafe).threads;
    ReachableCollect(early, s5, t, ReadingSafe, CollectSafe(t),
                     Draining(PartitionPoint(s.threads[t].garbage, s5.global, 0, |s.threads[t].garbage|)));
  }

  /** The grower, pinned at 1, has retired object o, which the table still links. */
  function EarlyRetired(o: Obj): State {
    State(1, [Thread(1, Pinned(1), 1, NotCollecting, [Garbage(o, 1)], {}, {}), FreshThread()],
          {o}, map[o := Retired(0, 1)])
  }

  lemma ReachableRegister(early: set<Obj>, s: State, threads: seq<Thread>)
    requires Reachable(early, s) && threads == s.threads + [FreshThread()]
    ensures Reachable(early, s.(threads := threads))
  {
    ReachableStep(early, s, Register);
  }

  /** Two threads registered and one object published. */
  lemma PublishedReachable(early: set<Obj>, o: Obj)
    ensures Reachable(early, State(1, [FreshThread(), FreshThread()], {o}, map[o := Live]))
  {
    LeadsNowhere(Next(early), INIT);
    ReachableRegister(early, INIT, [FreshThread()]);
    var s1 := INIT.(threads := [FreshThread()]);
    var s2 := INIT.(threads := [FreshThread(), FreshThread()]);
    ReachableRegister(early, s1, s2.threads);
    ReachableStep(early, s2, Publish(o));
    assert s2.linked + {o} == {o};
  }

  lemma TombstoneRetiredEarly(early: set<Obj>, o: Obj)
    requires o in early
    ensures Reachable(early, EarlyRetired(o))
  {
    var s3 := State(1, [FreshThread(), FreshThread()], {o}, map[o := Live]);
    PublishedReachable(early, o);
    ReachablePin(early, s3, 0);
    var grower := FreshThread().(local := 1, pin := Pinned(1), depth := 1);
    var s4 := s3.(threads := [grower, FreshThread()]);
    assert s4.threads == s3.threads[0 := grower];
    ReachableStep(early, s4, Retire(0, o));
    assert grower.garbage + [Garbage(o, 1)] == [Garbage(o, 1)];
    assert s4.status[o := Retired(0, 1)] == map[o := Retired(0, 1)];
    assert Apply(early, s4, Retire(0, o)).threads == EarlyRetired(o).threads;
  }

  /** A grower pinned at 1 retires a tombstone that the table still links; the
      epoch moves to 2; a reader pins at 2 and finds it; the table is swapped,
      the grower leaves and collects: the tombstone is freed under the reader. */
  lemma RetireBeforeUnlinkIsUnsafe(early: set<Obj>, o: Obj) returns (s: State)
    requires o in early
    ensures Reachable(early, s) && !Safe(s)
  {
    var s5 := EarlyRetired(o);
    TombstoneRetiredEarly(early, o);
    ReachableAdvance(early, s5, 1);
    var s6 := s5.(global := 2, threads := [s5.threads[0], FreshThread().(collect := Draining(0))]);
    assert s6.threads == s5.threads[1 := FreshThread().(collect := Draining(0))];
    ReachableStep(early, s6, CollectFree(1));
    var s7 := s5.(global := 2);
    assert Apply(early, s6, CollectFree(1)).threads == s7.threads;
    ReaderFindsTombstone(early, o, s7);
    s := ReaderOutlivesTombstone(early, o);
  }

  lemma ReaderFindsTombstone(early: set<Obj>, o: Obj, s7: State)
    requires s7 == EarlyRetired(o).(global := 2) && Reachable(early, s7)
    ensures Reachable(early, AfterSwap(o))
  {
    var grower := s7.threads[0];
    ReachablePin(early, s7, 1);
    var reader := FreshThread().(local := 2, pin := Pinned(2), depth := 1);
    var s8 := s7.(threads := [grower, reader]);
    assert s8.threads == s7.threads[1 := reader];
    ReachableStep(early, s8, Acquire(1, o));
    var s9 := s7.(threads := [grower, reader.(held := {o})]);
    assert reader.held + {o} == {o};
    assert Apply(early, s8, Acquire(1, o)).threads == s9.threads;
    ReachableSwap(early, o, s9);
  }

  /** The swap unlinks the object under both threads, and the grower unpins. */
  lemma ReachableSwap(early: set<Obj>, o: Obj, s9: State)
    requires s9 == EarlyRetired(o).(global := 2, threads := [EarlyRetired(o).threads[0],
                                                             Thread(2, Pinned(2), 1, NotCollecting, [], {o}, {})])
    requires Reachable(early, s9)
    ensures Reachable(early, AfterSwap(o))
  {
    var grower, reader := s9.threads[0], s9.threads[1];
    ReachableStep(early, s9, Unlink({o}));
    var s10 := s9.(threads := [grower.(stale := {o}), reader.(stale := {o})], linked := {});
    assert grower.stale + {o} == {o} && reader.stale + {o} == {o};
    assert MarkStale(grower, {o}) == s10.threads[0] && MarkStale(reader, {o}) == s10.threads[1];
    assert Apply(early, s9, Unlink({o})).threads == s10.threads;
    ReachableStep(early, s10, Unpin(0));
    assert Apply(early, s10, Unpin(0)).threads == AfterSwap(o).threads;
  }

  /** The table is swapped and the grower unpinned; the reader holds the object. */
  function AfterSwap(o: Obj): State {
    State(2, [Thread(INACTIVE, Unpinned, 0, NotCollecting, [Garbage(o, 1)], {}, {}),
              Thread(2, Pinned(2), 1, NotCollecting, [], {o}, {o})],
          {}, map[o := Retired(0, 1)])
  }

  lemma ReaderOutlivesTombstone(early: set<Obj>, o: Obj) returns (s: State)
    requires Reachable(early, AfterSwap(o))
    ensures Reachable(early, s) && !Safe(s)
  {
    var s0 := AfterSwap(o);
    ReachableAdvance(early, s0, 0);
    var g := s0.threads[0].garbage;
    assert PartitionPoint(g, 3, 0, 1) == 1;
    var s1 := State(3, [s0.threads[0].(collect := Draining(1)), s0.threads[1]], {}, map[o := Retired(0, 1)]);
    assert s1.threads == s0.threads[0 := s0.threads[0].(collect := Draining(1))];
    ReachableStep(early, s1, CollectFree(0));
    s := Apply(early, s1, CollectFree(0));
    assert o in s.threads[1].held && ObjStatus(s, o, Freed);
  }

  /** Whatever the objects that may be retired while they are linked: every run
      is safe exactly when there are none. */
  lemma SafeIffUnlinkFirst(early: set<Obj>)
    ensures (forall s :: Reachable(early, s) ==> Safe(s)) <==> early == {}
  {
    if early == {} {
      forall s | Reachable(early, s) ensures Safe(s) { ReclamationSafe(s); }
    } else {
      var o :| o in early;
      var s := RetireBeforeUnlinkIsUnsafe(early, o);
    }
  }
}
