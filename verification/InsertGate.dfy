/** Concurrent `insert_new` and `grow` on one shard: the insert gate, the length
    reservation, the compare-and-swap probe and the table swap, as interleaved
    atomic steps. Spinning and weak compare-and-swap failures change nothing and
    are not steps. `contents` is the finite map the shard stands for, written at
    the instant an insert or a removal takes effect. */
module InsertGate {
  import opened Common
  import opened Probe
  import opened Runs

  /** The top bit of the gate word. Smaller values count the inserters inside. */
  const GROWING: nat := 0x8000_0000_0000_0000

  datatype Job = Job(key: string, value: nat)

  datatype Call =
    | Idle
    | Entering(job: Job)                                     // before the gate
    | Loading(job: Job)                                      // inside: load table, compare len
    | Probing(job: Job, ver: nat, d: nat, reserved: bool)    // load slot d of the path
    | Reserving(job: Job, ver: nat, d: nat)                  // saw null: load len
    | Reserve(job: Job, ver: nat, d: nat, cur: nat)          // compare-and-swap len
    | Placing(job: Job, ver: nat, d: nat)                    // compare-and-swap the slot
    | Found(job: Job, ver: nat, d: nat, reserved: bool)      // the key is there: overwrite
    | Leaving                                                // drop the guard and return
    | LeavingFull(job: Job)                                  // drop the guard, then grow
    | WantLock(job: Job) | Locked(job: Job)                  // grow_lock, then gate 0 -> GROWING
    | Growing(job: Job) | Reopening(job: Job)                // grow_locked, then gate := 0

  datatype State = State(
    gate: nat, slots: Table<nat>, ver: nat, len: nat,
    lock: Option<nat>, calls: seq<Call>, contents: map<string, nat>)

  datatype Step =
    | NewThread | Start(i: nat, job: Job) | Enter(i: nat) | Load(i: nat)
    | Probe(i: nat) | LoadLen(i: nat) | CasLen(i: nat) | CasSlot(i: nat) | Overwrite(i: nat)
    | Leave(i: nat) | Lock(i: nat) | CloseGate(i: nat) | Grow(i: nat) | Reopen(i: nat)
    | Remove(slot: nat)

  function Init(cap: nat): State {
    State(0, EmptyTable<nat>(cap), 0, 0, None, [], map[])
  }

  predicate InGate(c: Call) {
    c.Loading? || c.Probing? || c.Reserving? || c.Reserve? || c.Placing? || c.Found? ||
    c.Leaving? || c.LeavingFull?
  }

  predicate HasReserved(c: Call) {
    c.Placing? || (c.Probing? && c.reserved) || (c.Found? && c.reserved)
  }

  predicate HoldsLock(c: Call) { c.Locked? || c.Growing? || c.Reopening? }

  /** A call working on a loaded table. */
  predicate OnTable(c: Call) {
    c.Probing? || c.Reserving? || c.Reserve? || c.Placing? || c.Found?
  }

  function Count(calls: seq<Call>, f: Call -> bool): nat {
    if calls == [] then 0 else (if f(calls[0]) then 1 else 0) + Count(calls[1..], f)
  }

  function SlotOf(s: State, h: string -> nat, c: Call): nat
    requires OnTable(c) && |s.slots| > 0
  {
    Pos(h(c.job.key), c.d, |s.slots|)
  }

  predicate Enabled(s: State, step: Step) {
    && |s.slots| > 0
    && (!step.NewThread? && !step.Remove? ==> step.i < |s.calls|)
    && match step
       case NewThread => |s.calls| + 1 < GROWING
       case Start(i, _) => s.calls[i].Idle?
       case Enter(i) => s.calls[i].Entering? && s.gate < GROWING
       case Load(i) => s.calls[i].Loading?
       case Probe(i) => s.calls[i].Probing?
       case LoadLen(i) => s.calls[i].Reserving?
       case CasLen(i) => s.calls[i].Reserve?
       case CasSlot(i) => s.calls[i].Placing?
       case Overwrite(i) =>
         s.calls[i].Found? && (s.calls[i].reserved ==> s.len > 0)
       case Leave(i) => (s.calls[i].Leaving? || s.calls[i].LeavingFull?) && s.gate > 0
       case Lock(i) => s.calls[i].WantLock? && s.lock.None?
       case CloseGate(i) => s.calls[i].Locked? && s.gate == 0
       case Grow(i) => s.calls[i].Growing?
       case Reopen(i) => s.calls[i].Reopening?
       case Remove(slot) => slot < |s.slots| && s.slots[slot].Some? && s.slots[slot].value.value.Some?
  }

  function Set(s: State, i: nat, c: Call): State
    requires i < |s.calls|
  {
    s.(calls := s.calls[i := c])
  }

  function Apply(h: string -> nat, s: State, step: Step): State
    requires Enabled(s, step)
  {
    match step
    case NewThread => s.(calls := s.calls + [Idle])
    case Start(i, job) => Set(s, i, Entering(job))
    case Enter(i) => Set(s, i, Loading(s.calls[i].job)).(gate := s.gate + 1)
    case Load(i) =>
      if s.len >= Threshold(|s.slots|) then Set(s, i, LeavingFull(s.calls[i].job))
      else Set(s, i, Probing(s.calls[i].job, s.ver, 0, false))
    case Probe(i) =>
      var c := s.calls[i];
      var p := s.slots[SlotOf(s, h, c)];
      if p.None? then
        Set(s, i, if c.reserved then Placing(c.job, c.ver, c.d) else Reserving(c.job, c.ver, c.d))
      else if p.value.hash == h(c.job.key) && p.value.key == c.job.key then
        Set(s, i, Found(c.job, c.ver, c.d, c.reserved))
      else Set(s, i, Probing(c.job, c.ver, c.d + 1, c.reserved))
    case LoadLen(i) =>
      var c := s.calls[i];
      if s.len >= Threshold(|s.slots|) then Set(s, i, LeavingFull(c.job))
      else Set(s, i, Reserve(c.job, c.ver, c.d, s.len))
    case CasLen(i) =>
      var c := s.calls[i];
      if s.len == c.cur then Set(s, i, Placing(c.job, c.ver, c.d)).(len := s.len + 1)
      else Set(s, i, Probing(c.job, c.ver, c.d, false))
    case CasSlot(i) =>
      var c := s.calls[i];
      if s.slots[SlotOf(s, h, c)].None? then
        Set(s, i, Leaving).(
          slots := s.slots[SlotOf(s, h, c) := Some(Entry(h(c.job.key), c.job.key, Some(c.job.value)))],
          contents := s.contents[c.job.key := c.job.value])
      else Set(s, i, Probing(c.job, c.ver, c.d, true))
    case Overwrite(i) =>
      var c := s.calls[i];
      var p := SlotOf(s, h, c);
      Set(s, i, Leaving).(
        len := if c.reserved then s.len - 1 else s.len,
        slots := s.slots[p := Some(Entry(h(c.job.key), c.job.key, Some(c.job.value)))],
        contents := s.contents[c.job.key := c.job.value])
    case Leave(i) =>
      var c := s.calls[i];
      Set(s, i, if c.Leaving? then Idle else WantLock(c.job)).(gate := s.gate - 1)
    case Lock(i) => Set(s, i, Locked(s.calls[i].job)).(lock := Some(i))
    case CloseGate(i) => Set(s, i, Growing(s.calls[i].job)).(gate := GROWING)
    case Grow(i) =>
      var s' := Set(s, i, Reopening(s.calls[i].job));
      if s.len < Threshold(|s.slots|) then s'
      else s'.(slots := Rehash(s.slots, EmptyTable<nat>(GrownCap(|s.slots|))), ver := s.ver + 1, len := Live(s.slots))
    case Reopen(i) => Set(s, i, Entering(s.calls[i].job)).(gate := 0, lock := None)
    case Remove(slot) =>
      s.(slots := s.slots[slot := Some(s.slots[slot].value.(value := None))],
         contents := s.contents - {s.slots[slot].value.key})
  }

  /** The state after a step, where the step can be taken. */
  function Next(h: string -> nat): (State, Step) -> Option<State> {
    (s, step) => if Enabled(s, step) then Some(Apply(h, s, step)) else None
  }

  // ----- the invariant ----------------------------------------------------------

  /** What a call knows about the table it is probing. */
  ghost predicate CallInv(s: State, h: string -> nat, c: Call) {
    OnTable(c) ==>
      && c.ver == s.ver && c.d < |s.slots|
      && Passed(s.slots, h(c.job.key), c.job.key, c.d)
      && (c.Found? ==> HasKey(s.slots, Pos(h(c.job.key), c.d, |s.slots|), c.job.key))
      && (c.Reserve? ==> c.cur < Threshold(|s.slots|))
  }

  ghost predicate GateInv(s: State) {
    && |s.calls| < GROWING
    && (s.gate == GROWING || s.gate == Count(s.calls, InGate))
    && (s.gate == GROWING ==> Count(s.calls, InGate) == 0 && s.lock.Some?)
    && (forall i :: 0 <= i < |s.calls| ==> (HoldsLock(s.calls[i]) <==> s.lock == Some(i)))
    && (forall i :: 0 <= i < |s.calls| && HoldsLock(s.calls[i]) ==>
          (s.calls[i].Locked? <==> s.gate != GROWING))
    && (s.lock.Some? ==> s.lock.value < |s.calls|)
  }

  ghost predicate TableInv(s: State, h: string -> nat) {
    && IsPow2(|s.slots|) && |s.slots| >= 8
    && WellFormed(s.slots, h)
    && Represents(s.slots, s.contents)
    && Used(s.slots) + Count(s.calls, HasReserved) == s.len <= Threshold(|s.slots|)
  }

  ghost predicate Inv(s: State, h: string -> nat) {
    && GateInv(s)
    && TableInv(s, h)
    && forall i :: 0 <= i < |s.calls| ==> CallInv(s, h, s.calls[i])
  }

  // ----- counting -----------------------------------------------------------------

  lemma {:induction false} CountUpdate(calls: seq<Call>, i: nat, c: Call, f: Call -> bool)
    requires i < |calls|
    ensures Count(calls[i := c], f) == Count(calls, f) - (if f(calls[i]) then 1 else 0) + (if f(c) then 1 else 0)
    decreases |calls|
  {
    if i > 0 {
      assert calls[i := c][1..] == calls[1..][i - 1 := c];
      CountUpdate(calls[1..], i - 1, c, f);
    } else {
      assert calls[i := c][1..] == calls[1..];
    }
  }

  lemma {:induction false} CountAppend(calls: seq<Call>, c: Call, f: Call -> bool)
    ensures Count(calls + [c], f) == Count(calls, f) + (if f(c) then 1 else 0)
    decreases |calls|
  {
    if calls == [] {
      assert (calls + [c])[1..] == [];
    } else {
      assert (calls + [c])[1..] == calls[1..] + [c];
      CountAppend(calls[1..], c, f);
    }
  }

  lemma {:induction false} CountZero(calls: seq<Call>, f: Call -> bool, i: nat)
    requires i < |calls|
    ensures f(calls[i]) ==> Count(calls, f) > 0
    ensures Count(calls, f) <= |calls|
    decreases |calls|
  {
    CountBound(calls, f);
    if i > 0 {
      CountZero(calls[1..], f, i - 1);
    }
  }

  lemma {:induction false} CountBound(calls: seq<Call>, f: Call -> bool)
    ensures Count(calls, f) <= |calls|
    decreases |calls|
  {
    if calls != [] { CountBound(calls[1..], f); }
  }

  /** Reservations belong to calls inside the gate. */
  lemma {:induction false} ReservedInGate(calls: seq<Call>)
    ensures Count(calls, HasReserved) <= Count(calls, InGate)
    decreases |calls|
  {
    if calls != [] { ReservedInGate(calls[1..]); }
  }

  // ----- every step keeps the invariant ---------------------------------------------

  /** Entries only appear, and keep their keys, while a call is probing. */
  ghost predicate Extends(t: Table<nat>, t': Table<nat>) {
    |t'| == |t| && forall i :: 0 <= i < |t| && t[i].Some? ==> t'[i].Some? && t'[i].value.key == t[i].value.key
  }

  lemma CallsKept(s: State, s': State, h: string -> nat, i: nat)
    requires Inv(s, h) && i < |s.calls| == |s'.calls|
    requires Extends(s.slots, s'.slots) && s'.ver == s.ver
    requires forall j :: 0 <= j < |s.calls| && j != i ==> s'.calls[j] == s.calls[j]
    requires CallInv(s', h, s'.calls[i])
    ensures forall j :: 0 <= j < |s'.calls| ==> CallInv(s', h, s'.calls[j])
  {
    forall j | 0 <= j < |s'.calls| ensures CallInv(s', h, s'.calls[j]) {
      if j != i {
        CallExtends(s, s', h, s.calls[j]);
      }
    }
  }

  lemma CallExtends(s: State, s': State, h: string -> nat, c: Call)
    requires CallInv(s, h, c) && Extends(s.slots, s'.slots) && s'.ver == s.ver
    ensures CallInv(s', h, c)
  {}

  lemma GateKept(s: State, s': State, i: nat, c: Call)
    requires GateInv(s) && i < |s.calls| && s'.calls == s.calls[i := c]
    requires s'.gate == s.gate && s'.lock == s.lock
    requires InGate(c) == InGate(s.calls[i])
    requires !HoldsLock(c) && !HoldsLock(s.calls[i])
    ensures GateInv(s')
  {
    CountUpdate(s.calls, i, c, InGate);
  }

  /** A step that only moves call i on, without crossing the gate. */
  lemma OnlyCall(s: State, h: string -> nat, i: nat, c: Call)
    requires Inv(s, h) && i < |s.calls| && CallInv(s, h, c)
    requires InGate(c) == InGate(s.calls[i]) && HasReserved(c) == HasReserved(s.calls[i])
    requires !HoldsLock(c) && !HoldsLock(s.calls[i])
    ensures Inv(Set(s, i, c), h)
  {
    var s' := Set(s, i, c);
    GateKept(s, s', i, c);
    CountUpdate(s.calls, i, c, HasReserved);
    CallExtends(s, s', h, c);
    CallsKept(s, s', h, i);
  }

  lemma StepOutside(s: State, h: string -> nat, step: Step)
    requires Inv(s, h) && Enabled(s, step) && (step.NewThread? || step.Start?)
    ensures Inv(Apply(h, s, step), h)
  {
    var s' := Apply(h, s, step);
    if step.NewThread? {
      CountAppend(s.calls, Idle, InGate);
      CountAppend(s.calls, Idle, HasReserved);
      forall j | 0 <= j < |s'.calls| ensures CallInv(s', h, s'.calls[j]) {
        if j < |s.calls| { CallExtends(s, s', h, s.calls[j]); }
      }
    } else {
      OnlyCall(s, h, step.i, Entering(step.job));
    }
  }

  /** An inserter enters an open gate. */
  lemma StepEnter(s: State, h: string -> nat, step: Step)
    requires Inv(s, h) && Enabled(s, step) && step.Enter?
    ensures Inv(Apply(h, s, step), h)
  {
    var s' := Apply(h, s, step);
    var c := s'.calls[step.i];
    CountUpdate(s.calls, step.i, c, InGate);
    CountUpdate(s.calls, step.i, c, HasReserved);
    CountBound(s'.calls, InGate);
    CallsKept(s, s', h, step.i);
  }

  lemma StepLeave(s: State, h: string -> nat, step: Step)
    requires Inv(s, h) && Enabled(s, step) && step.Leave?
    ensures Inv(Apply(h, s, step), h)
  {
    var s' := Apply(h, s, step);
    var c := s'.calls[step.i];
    CountUpdate(s.calls, step.i, c, InGate);
    CountUpdate(s.calls, step.i, c, HasReserved);
    CountZero(s.calls, InGate, step.i);
    CallsKept(s, s', h, step.i);
  }

  /** Loads inside the gate. */
  lemma StepRead(s: State, h: string -> nat, step: Step)
    requires Inv(s, h) && Enabled(s, step) && (step.Load? || step.LoadLen?)
    ensures Inv(Apply(h, s, step), h)
  {
    assert CallInv(s, h, s.calls[step.i]);
    OnlyCall(s, h, step.i, Apply(h, s, step).calls[step.i]);
  }

  /** One more slot passed, or the end of the path found. */
  lemma ProbeCall(s: State, h: string -> nat, i: nat)
    requires TableInv(s, h) && Enabled(s, Probe(i)) && CallInv(s, h, s.calls[i])
    ensures CallInv(s, h, Apply(h, s, Probe(i)).calls[i])
  {
    var c := s.calls[i];
    var p := s.slots[SlotOf(s, h, c)];
    if p.Some? && p.value.key != c.job.key {
      assert Passed(s.slots, h(c.job.key), c.job.key, c.d + 1);
      PassedWithinLap(s.slots, h(c.job.key), c.job.key, c.d + 1);
    }
  }

  lemma StepProbe(s: State, h: string -> nat, step: Step)
    requires Inv(s, h) && Enabled(s, step) && step.Probe?
    ensures Inv(Apply(h, s, step), h)
  {
    assert CallInv(s, h, s.calls[step.i]);
    ProbeCall(s, h, step.i);
    OnlyCall(s, h, step.i, Apply(h, s, step).calls[step.i]);
  }

  lemma StepCasLen(s: State, h: string -> nat, step: Step)
    requires Inv(s, h) && Enabled(s, step) && step.CasLen?
    ensures Inv(Apply(h, s, step), h)
  {
    var s' := Apply(h, s, step);
    var c := s'.calls[step.i];
    assert CallInv(s, h, s.calls[step.i]);
    GateKept(s, s', step.i, c);
    CountUpdate(s.calls, step.i, c, HasReserved);
    CallsKept(s, s', h, step.i);
  }

  /** The reservation becomes a slot; the key was nowhere in the table. */
  lemma StepCasSlot(s: State, h: string -> nat, step: Step)
    requires Inv(s, h) && Enabled(s, step) && step.CasSlot?
    ensures Inv(Apply(h, s, step), h)
    ensures s.slots[SlotOf(s, h, s.calls[step.i])].None? ==> s.calls[step.i].job.key !in s.contents
  {
    var s' := Apply(h, s, step);
    var c0 := s.calls[step.i];
    var c := s'.calls[step.i];
    assert CallInv(s, h, c0);
    GateKept(s, s', step.i, c);
    CountUpdate(s.calls, step.i, c, HasReserved);
    var p := SlotOf(s, h, c0);
    if s.slots[p].None? {
      var e := Entry(h(c0.job.key), c0.job.key, Some(c0.job.value));
      NullMeansAbsent(s.slots, h, c0.job.key, c0.d);
      AbsentFromMap(s.slots, s.contents, c0.job.key);
      PlaceKeepsWellFormed(s.slots, h, e, c0.d);
      WriteRepresents(s.slots, h, s.contents, p, e);
      UsedUpdate(s.slots, p, Some(e));
    }
    CallsKept(s, s', h, step.i);
  }

  lemma OnlySlot(t: Table<nat>, h: string -> nat, p: nat, key: string)
    requires WellFormed(t, h) && HasKey(t, p, key)
    ensures forall j :: j != p ==> !HasKey(t, j, key)
  {}

  /** The value in a slot is replaced: the table stays well formed and stands for the map with that value. */
  lemma Overwritten(t: Table<nat>, h: string -> nat, m: map<string, nat>, p: nat, job: Job)
    requires WellFormed(t, h) && Represents(t, m) && HasKey(t, p, job.key)
    ensures var t' := t[p := Some(Entry(h(job.key), job.key, Some(job.value)))];
            WellFormed(t', h) && Represents(t', m[job.key := job.value]) && Used(t') == Used(t) && Extends(t, t')
  {
    var e := Entry(h(job.key), job.key, Some(job.value));
    assert t[p].value.(value := Some(job.value)) == e;
    RewriteKeepsWellFormed(t, h, p, Some(job.value));
    OnlySlot(t, h, p, job.key);
    WriteRepresents(t, h, m, p, e);
    UsedUpdate(t, p, Some(e));
  }

  lemma StepOverwrite(s: State, h: string -> nat, step: Step)
    requires Inv(s, h) && Enabled(s, step) && step.Overwrite?
    ensures Inv(Apply(h, s, step), h)
  {
    var s' := Apply(h, s, step);
    var c0 := s.calls[step.i];
    var c := s'.calls[step.i];
    assert CallInv(s, h, c0);
    GateKept(s, s', step.i, c);
    CountUpdate(s.calls, step.i, c, HasReserved);
    Overwritten(s.slots, h, s.contents, SlotOf(s, h, c0), c0.job);
    CallsKept(s, s', h, step.i);
  }

  lemma StepRemove(s: State, h: string -> nat, step: Step)
    requires Inv(s, h) && Enabled(s, step) && step.Remove?
    ensures Inv(Apply(h, s, step), h)
  {
    var s' := Apply(h, s, step);
    var e := s.slots[step.slot].value.(value := None);
    RewriteKeepsWellFormed(s.slots, h, step.slot, None);
    OnlySlot(s.slots, h, step.slot, e.key);
    WriteRepresents(s.slots, h, s.contents, step.slot, e);
    UsedUpdate(s.slots, step.slot, Some(e));
    forall j | 0 <= j < |s'.calls| ensures CallInv(s', h, s'.calls[j]) {
      CallExtends(s, s', h, s.calls[j]);
    }
  }

  lemma StepLock(s: State, h: string -> nat, step: Step)
    requires Inv(s, h) && Enabled(s, step) && (step.Lock? || step.CloseGate? || step.Reopen?)
    ensures Inv(Apply(h, s, step), h)
  {
    var s' := Apply(h, s, step);
    var c := s'.calls[step.i];
    CountUpdate(s.calls, step.i, c, InGate);
    CountUpdate(s.calls, step.i, c, HasReserved);
    CallsKept(s, s', h, step.i);
  }

  /** With the gate closed no call is on the table, so it may be swapped. */
  lemma StepGrow(s: State, h: string -> nat, step: Step)
    requires Inv(s, h) && Enabled(s, step) && step.Grow?
    ensures Inv(Apply(h, s, step), h)
  {
    var s' := Apply(h, s, step);
    var c := s'.calls[step.i];
    assert HoldsLock(s.calls[step.i]);
    CountUpdate(s.calls, step.i, c, InGate);
    CountUpdate(s.calls, step.i, c, HasReserved);
    assert GateInv(s');
    forall j | 0 <= j < |s.calls| ensures !InGate(s.calls[j]) {
      CountZero(s.calls, InGate, j);
    }
    if s.len >= Threshold(|s.slots|) {
      ReservedInGate(s.calls);
      GrowthLeavesRoom(|s.slots|, Live(s.slots));
      FreshRehash(s.slots, GrownCap(|s.slots|), h, s.contents);
    }
  }

  lemma StepKeepsInv(s: State, h: string -> nat, step: Step)
    requires Inv(s, h) && Enabled(s, step)
    ensures Inv(Apply(h, s, step), h)
  {
    match step
    case NewThread => StepOutside(s, h, step);
    case Start(_, _) => StepOutside(s, h, step);
    case Enter(_) => StepEnter(s, h, step);
    case Load(_) => StepRead(s, h, step);
    case Probe(_) => StepProbe(s, h, step);
    case LoadLen(_) => StepRead(s, h, step);
    case CasLen(_) => StepCasLen(s, h, step);
    case CasSlot(_) => StepCasSlot(s, h, step);
    case Overwrite(_) => StepOverwrite(s, h, step);
    case Leave(_) => StepLeave(s, h, step);
    case Lock(_) => StepLock(s, h, step);
    case CloseGate(_) => StepLock(s, h, step);
    case Reopen(_) => StepLock(s, h, step);
    case Grow(_) => StepGrow(s, h, step);
    case Remove(_) => StepRemove(s, h, step);
  }

  lemma RunKeepsInv(s: State, h: string -> nat, s': State)
    requires Inv(s, h) && Leads(Next(h), s, s')
    ensures Inv(s', h)
  {
    var inv := x => Inv(x, h);
    forall x, step | inv(x) && Enabled(x, step) ensures inv(Apply(h, x, step)) {
      StepKeepsInv(x, h, step);
    }
    LeadsKeeps(Next(h), inv, s, s');
  }

  /** No subtraction goes below zero: the tests of `len` and the gate in `Enabled` shut nothing out. */
  lemma NothingUnderflows(s: State, h: string -> nat, i: nat)
    requires Inv(s, h) && i < |s.calls|
    ensures InGate(s.calls[i]) ==> 0 < s.gate < GROWING
    ensures HasReserved(s.calls[i]) ==> s.len > 0
    ensures s.calls[i].Found? ==> Enabled(s, Overwrite(i))
    ensures s.calls[i].Leaving? || s.calls[i].LeavingFull? ==> Enabled(s, Leave(i))
  {
    CountZero(s.calls, InGate, i);
    CountZero(s.calls, HasReserved, i);
  }

  // ----- what every run guarantees ------------------------------------------------

  ghost predicate Reachable(h: string -> nat, cap: nat, s: State) {
    Leads(Next(h), Init(cap), s)
  }

  lemma ReachableInv(h: string -> nat, cap: nat, s: State)
    requires IsPow2(cap) && cap >= 8 && Reachable(h, cap, s)
    ensures Inv(s, h)
  {
    EmptyUnused(EmptyTable<nat>(cap));
    RunKeepsInv(Init(cap), h, s);
  }

  /** The gate counts the inserters inside, or is exactly GROWING with none
      inside; a call inside works on the table that is current. */
  lemma GateExcludesGrowth(h: string -> nat, cap: nat, s: State, i: nat)
    requires IsPow2(cap) && cap >= 8 && Reachable(h, cap, s) && i < |s.calls|
    ensures (s.gate == Count(s.calls, InGate) && s.gate < GROWING) ||
            (s.gate == GROWING && Count(s.calls, InGate) == 0)
    ensures OnTable(s.calls[i]) ==> s.calls[i].ver == s.ver && s.gate != GROWING
    ensures s.calls[i].Growing? ==> forall j :: 0 <= j < |s.calls| ==> !InGate(s.calls[j])
  {
    ReachableInv(h, cap, s);
    CountZero(s.calls, InGate, i);
    assert CallInv(s, h, s.calls[i]);
    if s.calls[i].Growing? {
      assert HoldsLock(s.calls[i]);
      forall j | 0 <= j < |s.calls| ensures !InGate(s.calls[j]) {
        CountZero(s.calls, InGate, j);
      }
    }
  }

  /** Each key has at most one slot, on an unbroken chain; the slots in use and
      the outstanding reservations make up `len`, within the threshold and below
      the capacity; the table stands for exactly what the inserts and removals did. */
  lemma TableStaysSound(h: string -> nat, cap: nat, s: State)
    requires IsPow2(cap) && cap >= 8 && Reachable(h, cap, s)
    ensures WellFormed(s.slots, h)
    ensures Used(s.slots) + Count(s.calls, HasReserved) == s.len <= Threshold(|s.slots|) < |s.slots|
    ensures Represents(s.slots, s.contents) && Live(s.slots) == |s.contents|
  {
    ReachableInv(h, cap, s);
    LiveIsSize(s.slots, s.contents);
  }

  /** Every probe ends: a call that has passed d slots has d below the capacity,
      and a null slot lies on its path within the lap. */
  lemma ProbesEnd(h: string -> nat, cap: nat, s: State, i: nat)
    requires IsPow2(cap) && cap >= 8 && Reachable(h, cap, s) && i < |s.calls| && OnTable(s.calls[i])
    ensures s.calls[i].d < |s.slots|
    ensures exists d :: s.calls[i].d <= d < |s.slots| &&
              s.slots[Pos(h(s.calls[i].job.key), d, |s.slots|)].None?
  {
    ReachableInv(h, cap, s);
    var c := s.calls[i];
    assert CallInv(s, h, c);
    var n := NullSlot(s.slots);
    PosDist(h(c.job.key), n, |s.slots|);
    var d := Dist(h(c.job.key), n, |s.slots|);
    assert s.slots[Pos(h(c.job.key), d, |s.slots|)].None?;
  }

  /** A slot is taken only for a key the map does not hold, so an insert that
      takes one is new. */
  lemma PlacedKeyIsNew(h: string -> nat, cap: nat, s: State, i: nat)
    requires IsPow2(cap) && cap >= 8 && Reachable(h, cap, s) && Enabled(s, CasSlot(i))
    requires s.slots[SlotOf(s, h, s.calls[i])].None?
    ensures s.calls[i].job.key !in s.contents
    ensures forall j :: !HasKey(s.slots, j, s.calls[i].job.key)
  {
    ReachableInv(h, cap, s);
    StepCasSlot(s, h, CasSlot(i));
    assert CallInv(s, h, s.calls[i]);
    NullMeansAbsent(s.slots, h, s.calls[i].job.key, s.calls[i].d);
  }

  // ----- every call does its job ----------------------------------------------------

  /** The last step that started call i. */
  function Begun(steps: seq<Step>, i: nat): (n: Option<nat>)
    ensures n.Some? ==> n.value < |steps| && steps[n.value].Start? && steps[n.value].i == i
  {
    if steps == [] then None
    else
      var last := steps[|steps| - 1];
      if last.Start? && last.i == i then Some(|steps| - 1) else Begun(steps[..|steps| - 1], i)
  }

  /** After the first n steps the map binds the key of the job to its value. */
  ghost predicate EffectAt(h: string -> nat, cap: nat, steps: seq<Step>, n: nat, job: Job) {
    n <= |steps| &&
    var r := Run(Next(h), Init(cap), steps[..n]);
    r.Some? && job.key in r.value.contents && r.value.contents[job.key] == job.value
  }

  /** A call that was started is at work on its job, or the job has taken effect since. */
  ghost predicate Serves(h: string -> nat, cap: nat, steps: seq<Step>, i: nat, c: Call) {
    match Begun(steps, i)
    case None => c.Idle?
    case Some(n) =>
      if c.Idle? || c.Leaving? then exists k :: n < k <= |steps| && EffectAt(h, cap, steps, k, steps[n].job)
      else c.job == steps[n].job
  }

  lemma EffectStays(h: string -> nat, cap: nat, steps: seq<Step>, step: Step, n: nat, job: Job)
    requires EffectAt(h, cap, steps, n, job)
    ensures EffectAt(h, cap, steps + [step], n, job)
  {
    assert (steps + [step])[..n] == steps[..n];
  }

  /** Another call's step leaves this call as it is. */
  lemma OthersServe(h: string -> nat, cap: nat, steps: seq<Step>, step: Step, i: nat, c: Call)
    requires Serves(h, cap, steps, i, c) && !(step.Start? && step.i == i)
    ensures Serves(h, cap, steps + [step], i, c)
  {
    var all := steps + [step];
    assert all[..|all| - 1] == steps;
    var b := Begun(steps, i);
    if b.Some? && (c.Idle? || c.Leaving?) {
      var k :| b.value < k <= |steps| && EffectAt(h, cap, steps, k, steps[b.value].job);
      EffectStays(h, cap, steps, step, k, steps[b.value].job);
    }
  }

  /** A step of the call itself: its job stays, or takes effect now. */
  lemma OwnStepServes(h: string -> nat, cap: nat, steps: seq<Step>, step: Step, i: nat, s: State)
    requires Run(Next(h), Init(cap), steps) == Some(s) && Enabled(s, step) && i < |s.calls|
    requires Run(Next(h), Init(cap), steps + [step]) == Some(Apply(h, s, step))
    requires Serves(h, cap, steps, i, s.calls[i])
    requires !step.NewThread? && !step.Remove? && step.i == i
    ensures Serves(h, cap, steps + [step], i, Apply(h, s, step).calls[i])
  {
    var all, s' := steps + [step], Apply(h, s, step);
    var c, c' := s.calls[i], s'.calls[i];
    assert all[..|all| - 1] == steps && all[..|all|] == all;
    if !step.Start? {
      if c'.Leaving? {
        assert EffectAt(h, cap, all, |all|, c.job);
      } else if c.Leaving? {
        OthersServe(h, cap, steps, step, i, c);
      }
    }
  }

  lemma {:induction false} CallsServe(h: string -> nat, cap: nat, steps: seq<Step>, i: nat)
    requires var r := Run(Next(h), Init(cap), steps); r.Some? && i < |r.value.calls|
    ensures Serves(h, cap, steps, i, Run(Next(h), Init(cap), steps).value.calls[i])
    decreases |steps|
  {
    if steps != [] {
      var front, step := steps[..|steps| - 1], steps[|steps| - 1];
      assert steps == front + [step];
      RunSnoc(Next(h), Init(cap), front, step);
      var s := Run(Next(h), Init(cap), front).value;
      if i < |s.calls| {
        CallsServe(h, cap, front, i);
        if step.NewThread? || step.Remove? || step.i != i {
          OthersServe(h, cap, front, step, i, s.calls[i]);
        } else {
          OwnStepServes(h, cap, front, step, i, s);
        }
      } else {
        NotBegun(h, cap, front, i);
      }
    }
  }

  lemma StepThreads(h: string -> nat, s: State, step: Step)
    requires Enabled(s, step)
    ensures |Apply(h, s, step).calls| == |s.calls| + if step.NewThread? then 1 else 0
    ensures step.Start? ==> step.i < |s.calls|
  {
  }

  /** A thread that is not there yet has started nothing. */
  lemma {:induction false} NotBegun(h: string -> nat, cap: nat, steps: seq<Step>, i: nat)
    requires var r := Run(Next(h), Init(cap), steps); r.Some? && i >= |r.value.calls|
    ensures Begun(steps, i) == None
    decreases |steps|
  {
    if steps != [] {
      var front, step := steps[..|steps| - 1], steps[|steps| - 1];
      assert steps == front + [step];
      RunSnoc(Next(h), Init(cap), front, step);
      StepThreads(h, Run(Next(h), Init(cap), front).value, step);
      NotBegun(h, cap, front, i);
    }
  }

  /** Whenever a call has returned, the map has bound its key to its value at
      some instant since the call was started: no call gives up. */
  lemma ReturnedMeansInserted(h: string -> nat, cap: nat, steps: seq<Step>, s: State, i: nat, n: nat)
    requires Run(Next(h), Init(cap), steps) == Some(s) && i < |s.calls| && s.calls[i].Idle?
    requires Begun(steps, i) == Some(n)
    ensures exists k :: n < k <= |steps| && EffectAt(h, cap, steps, k, steps[n].job)
  {
    CallsServe(h, cap, steps, i);
  }

  /** Some call was started to bind the key to the value. */
  ghost predicate Asked(steps: seq<Step>, key: string, value: nat) {
    exists n :: 0 <= n < |steps| && steps[n].Start? && steps[n].job == Job(key, value)
  }

  /** The map holds nothing that no call was started for. */
  lemma {:induction false} NothingInvented(h: string -> nat, cap: nat, steps: seq<Step>, key: string)
    requires var r := Run(Next(h), Init(cap), steps); r.Some? && key in r.value.contents
    ensures Asked(steps, key, Run(Next(h), Init(cap), steps).value.contents[key])
    decreases |steps|
  {
    if steps != [] {
      var front, step := steps[..|steps| - 1], steps[|steps| - 1];
      assert steps == front + [step];
      RunSnoc(Next(h), Init(cap), front, step);
      var s := Run(Next(h), Init(cap), front).value;
      var v := Apply(h, s, step).contents[key];
      if key in s.contents && s.contents[key] == v {
        NothingInvented(h, cap, front, key);
        var n :| 0 <= n < |front| && front[n].Start? && front[n].job == Job(key, v);
        assert steps[n] == front[n];
      } else {
        CallsServe(h, cap, front, step.i);
        var n := Begun(front, step.i).value;
        assert steps[n] == front[n] && steps[n].job == Job(key, v);
      }
    }
  }

  /** A removal takes exactly the key of its slot from the map. */
  lemma RemovalTakesKey(h: string -> nat, cap: nat, s: State, slot: nat)
    requires IsPow2(cap) && cap >= 8 && Reachable(h, cap, s) && Enabled(s, Remove(slot))
    ensures var key, s' := s.slots[slot].value.key, Apply(h, s, Remove(slot));
            && key in s.contents && key !in s'.contents
            && forall k :: k != key ==> (k in s'.contents <==> k in s.contents) &&
                                        (k in s.contents ==> s'.contents[k] == s.contents[k])
  {
    ReachableInv(h, cap, s);
    assert LiveAt(s.slots, slot, s.slots[slot].value.key, s.slots[slot].value.value.value);
  }

  // ----- a call that runs alone gets there ---------------------------------------------

  /** All calls but one are idle. */
  predicate Solo(s: State, i: nat) {
    i < |s.calls| && forall j :: 0 <= j < |s.calls| && j != i ==> s.calls[j].Idle?
  }

  lemma {:induction false} CountIdle(calls: seq<Call>, f: Call -> bool)
    requires !f(Idle) && forall j :: 0 <= j < |calls| ==> calls[j].Idle?
    ensures Count(calls, f) == 0
    decreases |calls|
  {
    if calls != [] { CountIdle(calls[1..], f); }
  }

  lemma {:induction false} CountSolo(calls: seq<Call>, i: nat, f: Call -> bool)
    requires i < |calls| && !f(Idle) && forall j :: 0 <= j < |calls| && j != i ==> calls[j].Idle?
    ensures Count(calls, f) == if f(calls[i]) then 1 else 0
    decreases |calls|
  {
    if i == 0 {
      CountIdle(calls[1..], f);
    } else {
      CountSolo(calls[1..], i - 1, f);
    }
  }

  /** With one call at work, gate and lock are as that call has left them. */
  lemma SoloGate(s: State, h: string -> nat, i: nat)
    requires Inv(s, h) && Solo(s, i)
    ensures !HoldsLock(s.calls[i]) ==> s.lock.None? && s.gate == if InGate(s.calls[i]) then 1 else 0
    ensures s.calls[i].Locked? ==> s.gate == 0
  {
    CountSolo(s.calls, i, InGate);
    if s.lock.Some? {
      assert HoldsLock(s.calls[s.lock.value]);
    }
  }

  /** A step on the way from s0. */
  lemma OnWay(h: string -> nat, s0: State, s: State, i: nat, step: Step)
    requires Leads(Next(h), s0, s) && Inv(s, h) && Solo(s, i) && Enabled(s, step)
    requires !step.NewThread? && !step.Remove? && step.i == i
    ensures Leads(Next(h), s0, Apply(h, s, step)) && Inv(Apply(h, s, step), h) && Solo(Apply(h, s, step), i)
    ensures forall j :: 0 <= j < |s.calls| && j != i ==> Apply(h, s, step).calls[j] == s.calls[j]
    ensures |Apply(h, s, step).calls| == |s.calls|
  {
    LeadsOn(Next(h), s0, s, step);
    StepKeepsInv(s, h, step);
  }

  /** The call has returned, its key bound and nothing else changed. */
  ghost predicate Finished(h: string -> nat, s0: State, t: State, i: nat, job: Job, contents: map<string, nat>) {
    && Leads(Next(h), s0, t) && Solo(t, i) && t.calls[i].Idle?
    && t.contents == contents[job.key := job.value]
  }

  lemma LeavesSolo(h: string -> nat, s0: State, s: State, i: nat) returns (t: State)
    requires Leads(Next(h), s0, s) && Inv(s, h) && Solo(s, i) && s.calls[i].Leaving?
    ensures Leads(Next(h), s0, t) && Solo(t, i) && t.calls[i].Idle? && t.contents == s.contents
  {
    SoloGate(s, h, i);
    OnWay(h, s0, s, i, Leave(i));
    t := Apply(h, s, Leave(i));
  }

  /** From an empty slot on the path: reserve, place and leave. */
  lemma PlacesSolo(h: string -> nat, s0: State, s: State, i: nat) returns (t: State)
    requires Leads(Next(h), s0, s) && Inv(s, h) && Solo(s, i) && s.calls[i].Reserving?
    requires s.slots[SlotOf(s, h, s.calls[i])].None? && s.len < Threshold(|s.slots|)
    ensures Finished(h, s0, t, i, s.calls[i].job, s.contents)
  {
    OnWay(h, s0, s, i, LoadLen(i));
    var s1 := Apply(h, s, LoadLen(i));
    OnWay(h, s0, s1, i, CasLen(i));
    var s2 := Apply(h, s1, CasLen(i));
    OnWay(h, s0, s2, i, CasSlot(i));
    t := LeavesSolo(h, s0, Apply(h, s2, CasSlot(i)), i);
  }

  /** Along the path to the key or to the first empty slot. */
  lemma {:induction false} ProbesSolo(h: string -> nat, s0: State, s: State, i: nat) returns (t: State)
    requires Leads(Next(h), s0, s) && Inv(s, h) && Solo(s, i) && s.len < Threshold(|s.slots|)
    requires s.calls[i].Probing? && !s.calls[i].reserved
    ensures Finished(h, s0, t, i, s.calls[i].job, s.contents)
    decreases |s.slots| - s.calls[i].d
  {
    assert CallInv(s, h, s.calls[i]);
    OnWay(h, s0, s, i, Probe(i));
    var s1 := Apply(h, s, Probe(i));
    assert CallInv(s1, h, s1.calls[i]);
    if s1.calls[i].Reserving? {
      t := PlacesSolo(h, s0, s1, i);
    } else if s1.calls[i].Found? {
      OnWay(h, s0, s1, i, Overwrite(i));
      t := LeavesSolo(h, s0, Apply(h, s1, Overwrite(i)), i);
    } else {
      t := ProbesSolo(h, s0, s1, i);
    }
  }

  /** Through the gate with room in the table. */
  lemma EntersSolo(h: string -> nat, s0: State, s: State, i: nat) returns (t: State)
    requires Leads(Next(h), s0, s) && Inv(s, h) && Solo(s, i) && s.calls[i].Entering?
    requires s.len < Threshold(|s.slots|)
    ensures Finished(h, s0, t, i, s.calls[i].job, s.contents)
  {
    SoloGate(s, h, i);
    OnWay(h, s0, s, i, Enter(i));
    var s1 := Apply(h, s, Enter(i));
    OnWay(h, s0, s1, i, Load(i));
    t := ProbesSolo(h, s0, Apply(h, s1, Load(i)), i);
  }

  /** A full table sends the call out of the gate to wait for the lock. */
  lemma TurnedAway(h: string -> nat, s0: State, s: State, i: nat) returns (t: State)
    requires Leads(Next(h), s0, s) && Inv(s, h) && Solo(s, i) && s.calls[i].Entering?
    requires s.len >= Threshold(|s.slots|)
    ensures Leads(Next(h), s0, t) && Inv(t, h) && Solo(t, i) && t.calls[i] == WantLock(s.calls[i].job)
    ensures t.contents == s.contents && t.slots == s.slots && t.len == s.len
  {
    SoloGate(s, h, i);
    OnWay(h, s0, s, i, Enter(i));
    var s1 := Apply(h, s, Enter(i));
    OnWay(h, s0, s1, i, Load(i));
    var s2 := Apply(h, s1, Load(i));
    SoloGate(s2, h, i);
    OnWay(h, s0, s2, i, Leave(i));
    t := Apply(h, s2, Leave(i));
  }

  /** It takes the lock and closes the gate. */
  lemma ClosesSolo(h: string -> nat, s0: State, s: State, i: nat) returns (t: State)
    requires Leads(Next(h), s0, s) && Inv(s, h) && Solo(s, i) && s.calls[i].WantLock?
    ensures Leads(Next(h), s0, t) && Inv(t, h) && Solo(t, i) && t.calls[i] == Growing(s.calls[i].job)
    ensures t.contents == s.contents && t.slots == s.slots
  {
    SoloGate(s, h, i);
    OnWay(h, s0, s, i, Lock(i));
    var s1 := Apply(h, s, Lock(i));
    SoloGate(s1, h, i);
    OnWay(h, s0, s1, i, CloseGate(i));
    t := Apply(h, s1, CloseGate(i));
  }

  /** It grows the table and comes back to a gate with room behind it. */
  lemma GrowsSolo(h: string -> nat, s0: State, s: State, i: nat) returns (t: State)
    requires Leads(Next(h), s0, s) && Inv(s, h) && Solo(s, i) && s.calls[i].Growing?
    ensures Leads(Next(h), s0, t) && Inv(t, h) && Solo(t, i) && t.calls[i] == Entering(s.calls[i].job)
    ensures t.contents == s.contents && t.len < Threshold(|t.slots|)
  {
    OnWay(h, s0, s, i, Grow(i));
    GrownRoom(h, s, i);
    var s1 := Apply(h, s, Grow(i));
    OnWay(h, s0, s1, i, Reopen(i));
    t := Apply(h, s1, Reopen(i));
  }

  lemma GrownRoom(h: string -> nat, s: State, i: nat)
    requires Inv(s, h) && Enabled(s, Grow(i))
    ensures var s' := Apply(h, s, Grow(i)); s'.len < Threshold(|s'.slots|)
  {
    GrowthLeavesRoom(|s.slots|, Live(s.slots));
  }

  /** From every reachable state, a call that alone is at work gets through,
      whether the table is full or not, and leaves its key bound to its value. */
  lemma LoneCallInserts(h: string -> nat, cap: nat, s: State, i: nat) returns (t: State)
    requires IsPow2(cap) && cap >= 8 && Reachable(h, cap, s) && Solo(s, i) && s.calls[i].Entering?
    ensures Leads(Next(h), s, t) && Solo(t, i) && t.calls[i].Idle?
    ensures t.contents == s.contents[s.calls[i].job.key := s.calls[i].job.value]
  {
    ReachableInv(h, cap, s);
    LeadsNowhere(Next(h), s);
    if s.len < Threshold(|s.slots|) {
      t := EntersSolo(h, s, s, i);
    } else {
      var s1 := TurnedAway(h, s, s, i);
      var s2 := ClosesSolo(h, s, s1, i);
      var s3 := GrowsSolo(h, s, s2, i);
      t := EntersSolo(h, s, s3, i);
    }
  }
}
