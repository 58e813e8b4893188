/** The per-entry lock and sequence counter. Writers take the lock bit, bump the
    sequence, change the value cell by cell, bump again and unlock; a reader of
    `read_consistent` takes no lock: it loads the sequence, reads the cells and
    loads the sequence again, comparing 32 bits of it. The sequence lives in the
    upper 62 bits of one word, so its low 32 bits and its parity are those of the
    unbounded counter used here. */
module Seqlock {
  import opened Common
  import opened Runs

  const SEQ_MOD: nat := 0x1_0000_0000

  /** A value as the entry held it whole, and whether it was occupied then. */
  datatype Version = Version(occupied: bool, cells: seq<nat>)

  /** `Mutate` is update_with, `Replace` is update and try_update, `Insert` is
      insert_if_absent; `BlindSet` is the overwriting path of set and insert,
      which tests the occupied bit before it locks and not after. */
  datatype Kind = Mutate | Replace | Remove | Insert | BlindSet

  datatype Writer =
    | Resting
    | Tested(kind: Kind)                              // entry found in the state the kind wants
    | Locked(kind: Kind)
    | Granted(kind: Kind)                             // rechecked under the lock
    | Writing(kind: Kind, dropped: bool)              // between the two bumps
    | Closing(kind: Kind)                             // occupied bit set, second bump due
    | Unlocking

  datatype Reader =
    | Waiting
    | Began(first: nat)                               // even sequence seen, occupied bit next
    | Reading(first: nat, buf: seq<nat>)
    | Done(first: nat, buf: seq<nat>, span: nat)      // returned; bumps during the read
    | Absent                                          // returned none

  datatype State = State(
    lock: bool, owner: nat,                           // the lock bit, and who set it last
    occupied: bool, seqno: nat, cells: seq<nat>,
    live: bool,                                       // the cells hold a value that has not been dropped
    fault: bool,                                      // a value was dropped that was not there
    versions: seq<Version>, writers: seq<Writer>, readers: seq<Reader>)

  datatype Policy = Rechecking | AnyWriter

  datatype Step =
    | NewWriter | NewReader
    | Test(w: nat, kind: Kind) | Acquire(w: nat) | Recheck(w: nat) | Open(w: nat)
    | Drop(w: nat) | WriteCell(w: nat, i: nat, v: nat) | Finish(w: nat) | Close(w: nat) | Unlock(w: nat)
    | Begin(r: nat) | Occupied(r: nat) | ReadCell(r: nat) | Validate(r: nat)

  function Init(cells: seq<nat>): State {
    State(false, 0, true, 0, cells, true, false, [Version(true, cells)], [], [])
  }

  predicate Wants(kind: Kind, occupied: bool) {
    if kind.Insert? then !occupied else occupied
  }

  predicate MustDrop(kind: Kind) { kind.Replace? || kind.Remove? || kind.BlindSet? }

  predicate Enabled(p: Policy, s: State, step: Step) {
    match step
    case NewWriter => true
    case NewReader => true
    case Test(w, kind) =>
      w < |s.writers| && s.writers[w].Resting? && Wants(kind, s.occupied) && (kind.BlindSet? ==> p.AnyWriter?)
    case Acquire(w) => w < |s.writers| && s.writers[w].Tested? && !s.lock
    case Recheck(w) => w < |s.writers| && s.writers[w].Locked?
    case Open(w) => w < |s.writers| && s.writers[w].Granted?
    case Drop(w) => w < |s.writers| && s.writers[w].Writing? && !s.writers[w].dropped && MustDrop(s.writers[w].kind)
    case WriteCell(w, i, _) =>
      w < |s.writers| && s.writers[w].Writing? && i < |s.cells| &&
      (MustDrop(s.writers[w].kind) ==> s.writers[w].dropped)
    case Finish(w) =>
      w < |s.writers| && s.writers[w].Writing? && (MustDrop(s.writers[w].kind) ==> s.writers[w].dropped)
    case Close(w) => w < |s.writers| && s.writers[w].Closing?
    case Unlock(w) => w < |s.writers| && s.writers[w].Unlocking?
    case Begin(r) => r < |s.readers| && s.readers[r].Waiting?
    case Occupied(r) => r < |s.readers| && s.readers[r].Began?
    case ReadCell(r) => r < |s.readers| && s.readers[r].Reading? && |s.readers[r].buf| < |s.cells|
    case Validate(r) =>
      r < |s.readers| && s.readers[r].Reading? && |s.readers[r].buf| == |s.cells| && s.readers[r].first <= s.seqno
  }

  function SetW(s: State, w: nat, x: Writer): State
    requires w < |s.writers|
  { s.(writers := s.writers[w := x]) }

  function SetR(s: State, r: nat, x: Reader): State
    requires r < |s.readers|
  { s.(readers := s.readers[r := x]) }

  function Apply(p: Policy, s: State, step: Step): State
    requires Enabled(p, s, step)
  {
    match step
    case NewWriter => s.(writers := s.writers + [Resting])
    case NewReader => s.(readers := s.readers + [Waiting])
    case Test(w, kind) => SetW(s, w, Tested(kind))
    case Acquire(w) => SetW(s, w, Locked(s.writers[w].kind)).(lock := true, owner := w)
    case Recheck(w) =>
      var kind := s.writers[w].kind;
      if kind.BlindSet? || Wants(kind, s.occupied) then SetW(s, w, Granted(kind))
      else SetW(s, w, Unlocking)
    case Open(w) => SetW(s, w, Writing(s.writers[w].kind, false)).(seqno := s.seqno + 1)
    case Drop(w) =>
      SetW(s, w, Writing(s.writers[w].kind, true)).(live := false, fault := s.fault || !s.live)
    case WriteCell(w, i, v) => s.(cells := s.cells[i := v])
    case Finish(w) =>
      var kind := s.writers[w].kind;
      SetW(s, w, Closing(kind)).(live := !kind.Remove?,
        occupied := if kind.Remove? then false else if kind.Insert? then true else s.occupied)
    case Close(w) =>
      SetW(s, w, Unlocking).(seqno := s.seqno + 1, versions := s.versions + [Version(s.occupied, s.cells)])
    case Unlock(w) => SetW(s, w, Resting).(lock := false)
    case Begin(r) =>
      if s.seqno % SEQ_MOD % 2 != 0 then s else SetR(s, r, Began(s.seqno))
    case Occupied(r) =>
      SetR(s, r, if s.occupied then Reading(s.readers[r].first, []) else Absent)
    case ReadCell(r) =>
      var x := s.readers[r];
      SetR(s, r, Reading(x.first, x.buf + [s.cells[|x.buf|]]))
    case Validate(r) =>
      var x := s.readers[r];
      if s.seqno % SEQ_MOD == x.first % SEQ_MOD then SetR(s, r, Done(x.first, x.buf, s.seqno - x.first))
      else SetR(s, r, Waiting)
  }

  /** The state after a step, where the step can be taken. */
  function Next(p: Policy): (State, Step) -> Option<State> {
    (s, step) => if Enabled(p, s, step) then Some(Apply(p, s, step)) else None
  }

  ghost predicate Reachable(p: Policy, cells: seq<nat>, s: State) {
    Leads(Next(p), Init(cells), s)
  }

  // ----- the invariant ----------------------------------------------------------

  predicate HoldsLock(x: Writer) { !x.Resting? && !x.Tested? }

  /** Between its two bumps. */
  predicate Inside(x: Writer) { x.Writing? || x.Closing? }

  ghost predicate LockInv(s: State) {
    && (s.lock ==> s.owner < |s.writers|)
    && (forall w :: 0 <= w < |s.writers| ==> (HoldsLock(s.writers[w]) <==> s.lock && s.owner == w))
    && (s.seqno % 2 == 1 <==> s.lock && Inside(s.writers[s.owner]))
  }

  /** versions[k] is what the entry held while the sequence was 2k. */
  ghost predicate VersionInv(s: State) {
    && |s.versions| == s.seqno / 2 + 1
    && (s.seqno % 2 == 0 ==> s.versions[s.seqno / 2] == Version(s.occupied, s.cells))
    && forall k :: 0 <= k < |s.versions| ==> |s.versions[k].cells| == |s.cells|
  }

  /** A reader whose sequence has not moved has seen one version only. */
  ghost predicate ReaderInv(s: State, x: Reader) {
    match x
    case Waiting => true
    case Absent => true
    case Began(first) => first % 2 == 0 && first <= s.seqno
    case Reading(first, buf) =>
      && first % 2 == 0 && first <= s.seqno && |buf| <= |s.cells|
      && (first == s.seqno ==>
            first / 2 < |s.versions| && s.versions[first / 2].occupied && buf <= s.versions[first / 2].cells)
    case Done(first, buf, span) => span < SEQ_MOD ==> Whole(s, first, buf)
  }

  /** buf is the value the entry held whole while its sequence was `first`. */
  ghost predicate Whole(s: State, first: nat, buf: seq<nat>) {
    first / 2 < |s.versions| && s.versions[first / 2] == Version(true, buf)
  }

  /** A dropped value is never dropped again while every writer rechecks. */
  ghost predicate DropInv(s: State) {
    && !s.fault
    && (s.seqno % 2 == 0 ==> s.live == s.occupied)
    && forall w :: 0 <= w < |s.writers| ==> WriterDrops(s, s.writers[w])
  }

  ghost predicate WriterDrops(s: State, x: Writer) {
    match x
    case Tested(kind) => !kind.BlindSet?
    case Locked(kind) => !kind.BlindSet?
    case Granted(kind) => !kind.BlindSet? && Wants(kind, s.occupied)
    case Writing(kind, dropped) =>
      !kind.BlindSet? && Wants(kind, s.occupied) && (!dropped ==> s.live == s.occupied)
    case Closing(kind) => s.live == s.occupied == !kind.Remove?
    case _ => true
  }

  ghost predicate Inv(s: State) {
    && LockInv(s) && VersionInv(s)
    && forall r :: 0 <= r < |s.readers| ==> ReaderInv(s, s.readers[r])
  }

  // ----- every step keeps it -------------------------------------------------------

  lemma ModTwo(n: nat)
    ensures n % SEQ_MOD % 2 == n % 2
  {
    var q := n / SEQ_MOD;
    assert n == SEQ_MOD * q + n % SEQ_MOD;
  }

  /** Within fewer than 2^32 bumps, equal low halves mean an equal sequence. */
  lemma NoWrap(a: nat, b: nat)
    requires a <= b < a + SEQ_MOD && a % SEQ_MOD == b % SEQ_MOD
    ensures a == b
  {
    var qa, qb := a / SEQ_MOD, b / SEQ_MOD;
    assert a == SEQ_MOD * qa + a % SEQ_MOD && b == SEQ_MOD * qb + b % SEQ_MOD;
    assert SEQ_MOD * (qb - qa) == b - a;
  }

  predicate IsReaderStep(step: Step) {
    step.NewReader? || step.Begin? || step.Occupied? || step.ReadCell? || step.Validate?
  }

  /** Moving the lock holder, or a writer that neither has nor takes the lock. */
  lemma LockKept(s: State, s': State, w: nat, x: Writer)
    requires LockInv(s) && w < |s.writers| && s'.writers == s.writers[w := x]
    requires HoldsLock(x) == HoldsLock(s.writers[w]) && s'.lock == s.lock && s'.owner == s.owner
    requires s'.seqno % 2 == (if Inside(x) == Inside(s.writers[w]) then s.seqno % 2 else 1 - s.seqno % 2)
    ensures LockInv(s')
  {
    assert HoldsLock(s.writers[w]) <==> s.lock && s.owner == w;
  }

  lemma WriterKeepsLock(p: Policy, s: State, step: Step)
    requires LockInv(s) && Enabled(p, s, step) && !IsReaderStep(step)
    ensures LockInv(Apply(p, s, step))
  {
    var s' := Apply(p, s, step);
    if !step.NewWriter? && !step.Acquire? && !step.Unlock? {
      assert s'.writers == s.writers[step.w := s'.writers[step.w]];
      LockKept(s, s', step.w, s'.writers[step.w]);
    }
  }

  lemma WriterKeepsVersions(p: Policy, s: State, step: Step)
    requires LockInv(s) && VersionInv(s) && Enabled(p, s, step) && !IsReaderStep(step)
    ensures VersionInv(Apply(p, s, step))
    ensures s.versions <= Apply(p, s, step).versions
  {
    if !step.NewWriter? {
      assert HoldsLock(s.writers[step.w]) <==> s.lock && s.owner == step.w;
    }
  }

  /** Reader steps other than the last. */
  lemma ReaderStep(p: Policy, s: State, r: nat, step: Step)
    requires Inv(s) && Enabled(p, s, step) && r < |s.readers|
    requires step == Begin(r) || step == Occupied(r) || step == ReadCell(r)
    ensures ReaderInv(s, Apply(p, s, step).readers[r])
  {
    ModTwo(s.seqno);
    var x := s.readers[r];
    assert ReaderInv(s, x);
    if step.ReadCell? && x.first == s.seqno {
      var cs := s.versions[x.first / 2].cells;
      assert cs == s.cells;
      assert x.buf + [cs[|x.buf|]] <= cs;
    }
  }

  lemma ValidateStep(p: Policy, s: State, r: nat)
    requires Inv(s) && Enabled(p, s, Validate(r))
    ensures ReaderInv(s, Apply(p, s, Validate(r)).readers[r])
  {
    var x := s.readers[r];
    assert ReaderInv(s, x);
    if s.seqno % SEQ_MOD == x.first % SEQ_MOD && s.seqno - x.first < SEQ_MOD {
      NoWrap(x.first, s.seqno);
      assert x.buf == s.versions[x.first / 2].cells;
    }
  }

  /** A writer step moves the sequence on, or leaves the readers' version alone. */
  lemma ReadersKept(s: State, s': State, x: Reader)
    requires ReaderInv(s, x) && s.seqno <= s'.seqno && |s'.cells| == |s.cells|
    requires VersionInv(s) && s.versions <= s'.versions
    ensures ReaderInv(s', x)
  {
    assert forall k :: 0 <= k < |s.versions| ==> s'.versions[k] == s.versions[k];
  }

  lemma OnlyReader(s: State, r: nat, x: Reader)
    requires Inv(s) && r < |s.readers| && ReaderInv(s, x)
    ensures Inv(SetR(s, r, x))
  {
    var s' := SetR(s, r, x);
    forall q | 0 <= q < |s'.readers| ensures ReaderInv(s', s'.readers[q]) {
      ReadersKept(s, s', s'.readers[q]);
    }
  }

  lemma ReaderKeepsInv(p: Policy, s: State, step: Step)
    requires Inv(s) && Enabled(p, s, step) && IsReaderStep(step) && !step.NewReader?
    ensures Inv(Apply(p, s, step))
  {
    var s' := Apply(p, s, step);
    if step.Validate? {
      ValidateStep(p, s, step.r);
    } else {
      ReaderStep(p, s, step.r, step);
    }
    OnlyReader(s, step.r, s'.readers[step.r]);
    ReaderMovesAlone(p, s, step);
  }

  lemma ReaderMovesAlone(p: Policy, s: State, step: Step)
    requires Enabled(p, s, step) && IsReaderStep(step) && !step.NewReader?
    ensures Apply(p, s, step) == SetR(s, step.r, Apply(p, s, step).readers[step.r])
  {
    var s' := Apply(p, s, step);
    assert s'.readers == s.readers[step.r := s'.readers[step.r]];
  }

  lemma NewReaderKeepsInv(p: Policy, s: State)
    requires Inv(s)
    ensures Inv(Apply(p, s, NewReader))
  {
    var s' := Apply(p, s, NewReader);
    forall q | 0 <= q < |s'.readers| ensures ReaderInv(s', s'.readers[q]) {
      if q < |s.readers| { ReadersKept(s, s', s.readers[q]); }
    }
  }

  lemma StepKeepsInv(p: Policy, s: State, step: Step)
    requires Inv(s) && Enabled(p, s, step)
    ensures Inv(Apply(p, s, step))
  {
    if step.NewReader? {
      NewReaderKeepsInv(p, s);
    } else if IsReaderStep(step) {
      ReaderKeepsInv(p, s, step);
    } else {
      var s' := Apply(p, s, step);
      WriterKeepsLock(p, s, step);
      WriterKeepsVersions(p, s, step);
      forall r | 0 <= r < |s'.readers| ensures ReaderInv(s', s'.readers[r]) {
        ReadersKept(s, s', s.readers[r]);
      }
    }
  }

  lemma RunKeepsInv(p: Policy, s: State, s': State)
    requires Inv(s) && Leads(Next(p), s, s')
    ensures Inv(s')
  {
    forall x, step | Inv(x) && Enabled(p, x, step) ensures Inv(Apply(p, x, step)) {
      StepKeepsInv(p, x, step);
    }
    LeadsKeeps(Next(p), Inv, s, s');
  }

  // ----- what every run guarantees ------------------------------------------------

  /** The sequence is odd exactly while the lock holder is between its bumps. */
  lemma OddWhileWriting(p: Policy, cells: seq<nat>, s: State)
    requires Reachable(p, cells, s)
    ensures s.seqno % 2 == 1 <==> exists w :: 0 <= w < |s.writers| && Inside(s.writers[w])
    ensures forall v, w :: 0 <= v < w < |s.writers| ==> !(HoldsLock(s.writers[v]) && HoldsLock(s.writers[w]))
  {
    RunKeepsInv(p, Init(cells), s);
    if s.lock { assert HoldsLock(s.writers[s.owner]); }
  }

  /** A returned read that spanned fewer than 2^32 bumps saw the value the entry
      held whole, occupied, at the moment the read began. */
  lemma ReadsAreWhole(p: Policy, cells: seq<nat>, s: State, r: nat)
    requires Reachable(p, cells, s) && r < |s.readers| && s.readers[r].Done?
    requires s.readers[r].span < SEQ_MOD
    ensures Whole(s, s.readers[r].first, s.readers[r].buf)
  {
    RunKeepsInv(p, Init(cells), s);
    assert ReaderInv(s, s.readers[r]);
  }

  // ----- dropping -----------------------------------------------------------------

  /** A step of the lock holder: nobody else is past the lock. */
  lemma HolderKeepsDrops(s: State, step: Step)
    requires LockInv(s) && DropInv(s) && Enabled(Rechecking, s, step)
    requires !IsReaderStep(step) && !step.NewWriter? && HoldsLock(s.writers[step.w])
    ensures DropInv(Apply(Rechecking, s, step))
  {
    var s' := Apply(Rechecking, s, step);
    assert WriterDrops(s, s.writers[step.w]);
    forall v | 0 <= v < |s'.writers| ensures WriterDrops(s', s'.writers[v]) {
      if v != step.w {
        assert WriterDrops(s, s.writers[v]) && !HoldsLock(s.writers[v]);
      }
    }
  }

  lemma StepKeepsDrops(s: State, step: Step)
    requires LockInv(s) && DropInv(s) && Enabled(Rechecking, s, step)
    ensures DropInv(Apply(Rechecking, s, step))
  {
    if !IsReaderStep(step) && !step.NewWriter? && HoldsLock(s.writers[step.w]) {
      HolderKeepsDrops(s, step);
    } else {
      var s' := Apply(Rechecking, s, step);
      forall v | 0 <= v < |s'.writers| ensures WriterDrops(s', s'.writers[v]) {
        if v < |s.writers| { assert WriterDrops(s, s.writers[v]); }
      }
    }
  }

  lemma RunKeepsDrops(s: State, s': State)
    requires Inv(s) && DropInv(s) && Leads(Next(Rechecking), s, s')
    ensures Inv(s') && DropInv(s')
  {
    var inv := x => Inv(x) && DropInv(x);
    forall x, step | inv(x) && Enabled(Rechecking, x, step) ensures inv(Apply(Rechecking, x, step)) {
      StepKeepsInv(Rechecking, x, step);
      StepKeepsDrops(x, step);
    }
    LeadsKeeps(Next(Rechecking), inv, s, s');
  }

  // ----- what a writer leaves ------------------------------------------------------------

  /** The version that a writer closes is occupied unless it removed, and holds the cells as they are. */
  lemma ClosesAs(cells: seq<nat>, s: State, w: nat)
    requires Reachable(Rechecking, cells, s) && Enabled(Rechecking, s, Close(w))
    ensures Apply(Rechecking, s, Close(w)).versions ==
            s.versions + [Version(!s.writers[w].kind.Remove?, s.cells)]
  {
    RunKeepsDrops(Init(cells), s);
    assert WriterDrops(s, s.writers[w]);
  }

  /** Only a writer that replaces or removes drops. */
  ghost predicate DropsOnlyOld(s: State) {
    forall w :: 0 <= w < |s.writers| && s.writers[w].Writing? && s.writers[w].dropped ==>
      s.writers[w].kind in {Replace, Remove, BlindSet}
  }

  lemma StepDropsOnlyOld(p: Policy, s: State, step: Step)
    requires DropsOnlyOld(s) && Enabled(p, s, step)
    ensures DropsOnlyOld(Apply(p, s, step))
  {
  }

  /** When a writer finishes, it has dropped the old value exactly if it replaces or removes it. */
  lemma DropsExactly(p: Policy, cells: seq<nat>, s: State, w: nat)
    requires Reachable(p, cells, s) && Enabled(p, s, Finish(w))
    ensures s.writers[w].dropped <==> s.writers[w].kind in {Replace, Remove, BlindSet}
  {
    forall x, step | DropsOnlyOld(x) && Enabled(p, x, step) ensures DropsOnlyOld(Apply(p, x, step)) {
      StepDropsOnlyOld(p, x, step);
    }
    LeadsKeeps(Next(p), DropsOnlyOld, Init(cells), s);
  }

  /** The value last written to cell i, or the one it began with. */
  function LastWritten(steps: seq<Step>, i: nat, initial: nat): nat {
    if steps == [] then initial
    else
      var last := steps[|steps| - 1];
      if last.WriteCell? && last.i == i then last.v else LastWritten(steps[..|steps| - 1], i, initial)
  }

  lemma CellStep(p: Policy, s: State, step: Step, i: nat)
    requires Enabled(p, s, step) && i < |s.cells|
    ensures var s' := Apply(p, s, step);
            |s'.cells| == |s.cells| && s'.cells[i] == if step.WriteCell? && step.i == i then step.v else s.cells[i]
  {
    if IsReaderStep(step) {
      ReadersLeaveCells(p, s, step);
    }
  }

  lemma ReadersLeaveCells(p: Policy, s: State, step: Step)
    requires Enabled(p, s, step) && IsReaderStep(step)
    ensures Apply(p, s, step).cells == s.cells
  {
  }

  /** Over any run, every cell holds what was last written to it. */
  lemma {:induction false} CellsAsWritten(p: Policy, cells: seq<nat>, steps: seq<Step>, i: nat)
    requires Run(Next(p), Init(cells), steps).Some? && i < |cells|
    ensures var s := Run(Next(p), Init(cells), steps).value;
            |s.cells| == |cells| && s.cells[i] == LastWritten(steps, i, cells[i])
    decreases |steps|
  {
    if steps != [] {
      var front, step := steps[..|steps| - 1], steps[|steps| - 1];
      assert steps == front + [step];
      RunSnoc(Next(p), Init(cells), front, step);
      CellsAsWritten(p, cells, front, i);
      CellStep(p, Run(Next(p), Init(cells), front).value, step, i);
    }
  }

  lemma WritesOn(s0: State, s: State, step: Step)
    requires Leads(Next(Rechecking), s0, s) && Enabled(Rechecking, s, step)
    ensures Leads(Next(Rechecking), s0, Apply(Rechecking, s, step))
  {
    LeadsOn(Next(Rechecking), s0, s, step);
  }

  /** Only the cells, the writer and its bookkeeping have moved. */
  ghost predicate Aside(s0: State, s: State, w: nat) {
    && Leads(Next(Rechecking), s0, s) && s.readers == s0.readers
    && w < |s.writers| == |s0.writers| && s.writers == s0.writers[w := s.writers[w]] && |s.cells| == |s0.cells|
  }

  /** The writer fills in the cells of the new value. */
  lemma {:induction false} FillsCells(s0: State, s: State, w: nat, value: seq<nat>, n: nat) returns (t: State)
    requires Aside(s0, s, w) && |value| == |s.cells| && n <= |value|
    requires s.writers[w].Writing? && (MustDrop(s.writers[w].kind) ==> s.writers[w].dropped)
    requires forall i :: 0 <= i < n ==> s.cells[i] == value[i]
    ensures Aside(s0, t, w) && t == s.(cells := value)
    decreases |value| - n
  {
    if n == |value| {
      assert s.cells == value;
      t := s;
    } else {
      WritesOn(s0, s, WriteCell(w, n, value[n]));
      t := FillsCells(s0, Apply(Rechecking, s, WriteCell(w, n, value[n])), w, value, n + 1);
    }
  }

  /** Into the section: lock, second test, first bump, and the old value dropped where there is one to drop. */
  lemma OpensSection(s: State, w: nat) returns (t: State)
    requires w < |s.writers| && s.writers[w].Tested? && !s.lock
    requires Wants(s.writers[w].kind, s.occupied) && !s.writers[w].kind.BlindSet?
    ensures Aside(s, t, w) && t.writers[w].Writing? && t.writers[w].kind == s.writers[w].kind
    ensures MustDrop(s.writers[w].kind) ==> t.writers[w].dropped
    ensures t.cells == s.cells && t.occupied == s.occupied && t.versions == s.versions && t.seqno == s.seqno + 1
  {
    LeadsNowhere(Next(Rechecking), s);
    WritesOn(s, s, Acquire(w));
    var s1 := Apply(Rechecking, s, Acquire(w));
    WritesOn(s, s1, Recheck(w));
    var s2 := Apply(Rechecking, s1, Recheck(w));
    WritesOn(s, s2, Open(w));
    t := Apply(Rechecking, s2, Open(w));
    if MustDrop(s.writers[w].kind) {
      WritesOn(s, t, Drop(w));
      t := Apply(Rechecking, t, Drop(w));
    }
  }

  lemma ClosesSection(s0: State, s: State, w: nat) returns (t: State)
    requires Aside(s0, s, w) && s.writers[w].Writing? && (MustDrop(s.writers[w].kind) ==> s.writers[w].dropped)
    requires Wants(s.writers[w].kind, s.occupied)
    ensures Aside(s0, t, w) && t.writers[w].Resting? && !t.lock && t.seqno == s.seqno + 1 && t.cells == s.cells
    ensures t.occupied == !s.writers[w].kind.Remove? && t.versions == s.versions + [Version(t.occupied, s.cells)]
  {
    WritesOn(s0, s, Finish(w));
    var s1 := Apply(Rechecking, s, Finish(w));
    WritesOn(s0, s1, Close(w));
    var s2 := Apply(Rechecking, s1, Close(w));
    WritesOn(s0, s2, Unlock(w));
    t := Apply(Rechecking, s2, Unlock(w));
  }

  /**
   * A writer that has found the entry as it wants it, with the lock free, gets
   * through: an update or an insert leaves the new value, occupied; a removal
   * leaves the entry unoccupied. Two bumps, one version, lock free again.
   */
  lemma LoneWriterWrites(s: State, w: nat, value: seq<nat>) returns (t: State)
    requires w < |s.writers| && s.writers[w].Tested? && !s.lock && |value| == |s.cells|
    requires Wants(s.writers[w].kind, s.occupied) && !s.writers[w].kind.BlindSet?
    ensures Leads(Next(Rechecking), s, t) && t.readers == s.readers && t.writers == s.writers[w := Resting] && !t.lock
    ensures t.occupied == !s.writers[w].kind.Remove? && t.seqno == s.seqno + 2
    ensures t.cells == if s.writers[w].kind.Remove? then s.cells else value
    ensures t.versions == s.versions + [Version(t.occupied, t.cells)]
  {
    var s1 := OpensSection(s, w);
    var s2 := s1;
    if !s.writers[w].kind.Remove? {
      s2 := FillsCells(s, s1, w, value, 0);
    }
    t := ClosesSection(s, s2, w);
  }

  // ----- what a reader answers -------------------------------------------------------------

  /** A reader that nothing disturbs answers with the value if the entry is occupied, and with none if it is not. */
  lemma LoneReaderReads(s: State, r: nat) returns (t: State)
    requires r < |s.readers| && s.readers[r].Waiting? && s.seqno % 2 == 0
    ensures Leads(Next(Rechecking), s, t) && |t.readers| == |s.readers|
    ensures t.readers[r] == if s.occupied then Done(s.seqno, s.cells, 0) else Absent
  {
    ModTwo(s.seqno);
    LeadsNowhere(Next(Rechecking), s);
    WritesOn(s, s, Begin(r));
    var s1 := Apply(Rechecking, s, Begin(r));
    WritesOn(s, s1, Occupied(r));
    t := Apply(Rechecking, s1, Occupied(r));
    if s.occupied {
      var s2 := CopiesCells(s, t, r);
      WritesOn(s, s2, Validate(r));
      t := Apply(Rechecking, s2, Validate(r));
    }
  }

  lemma {:induction false} CopiesCells(s0: State, s: State, r: nat) returns (t: State)
    requires Leads(Next(Rechecking), s0, s) && r < |s.readers| && s.readers[r].Reading? && s.readers[r].buf <= s.cells
    ensures Leads(Next(Rechecking), s0, t)
    ensures t == SetR(s, r, Reading(s.readers[r].first, s.cells))
    decreases |s.cells| - |s.readers[r].buf|
  {
    var x := s.readers[r];
    if |x.buf| == |s.cells| {
      t := s;
      assert x.buf == s.cells && s.readers[r := x] == s.readers;
    } else {
      WritesOn(s0, s, ReadCell(r));
      var s1 := Apply(Rechecking, s, ReadCell(r));
      t := CopiesCells(s0, s1, r);
      assert s1.readers[r := t.readers[r]] == s.readers[r := t.readers[r]];
    }
  }

  /** The last step that began a read of reader r. */
  function ReadBegun(steps: seq<Step>, r: nat): (n: Option<nat>)
    ensures n.Some? ==> n.value < |steps|
  {
    if steps == [] then None
    else if steps[|steps| - 1] == Begin(r) then Some(|steps| - 1)
    else ReadBegun(steps[..|steps| - 1], r)
  }

  /** After the first n steps the entry is unoccupied. */
  ghost predicate GoneAt(p: Policy, cells: seq<nat>, steps: seq<Step>, n: nat) {
    n <= |steps| &&
    var r := Run(Next(p), Init(cells), steps[..n]);
    r.Some? && !r.value.occupied
  }

  ghost predicate AnswersRight(p: Policy, cells: seq<nat>, steps: seq<Step>, r: nat, x: Reader) {
    && (!x.Waiting? ==> ReadBegun(steps, r).Some?)
    && (x.Absent? ==> exists n :: ReadBegun(steps, r).value < n <= |steps| && GoneAt(p, cells, steps, n))
  }

  lemma AnswerStays(p: Policy, cells: seq<nat>, steps: seq<Step>, step: Step, r: nat, x: Reader)
    requires AnswersRight(p, cells, steps, r, x) && step != Begin(r)
    ensures AnswersRight(p, cells, steps + [step], r, x)
  {
    var all := steps + [step];
    assert all[..|all| - 1] == steps;
    if x.Absent? {
      var n :| ReadBegun(steps, r).value < n <= |steps| && GoneAt(p, cells, steps, n);
      assert all[..n] == steps[..n];
      assert GoneAt(p, cells, all, n);
    }
  }

  lemma OwnAnswer(p: Policy, cells: seq<nat>, steps: seq<Step>, step: Step, r: nat, s: State)
    requires Run(Next(p), Init(cells), steps) == Some(s) && Enabled(p, s, step) && r < |s.readers|
    requires AnswersRight(p, cells, steps, r, s.readers[r])
    requires step == Begin(r) || step == Occupied(r) || step == ReadCell(r) || step == Validate(r)
    ensures AnswersRight(p, cells, steps + [step], r, Apply(p, s, step).readers[r])
  {
    var all := steps + [step];
    assert all[..|all| - 1] == steps && all[..|steps|] == steps;
    if step == Occupied(r) && !s.occupied {
      assert GoneAt(p, cells, all, |steps|);
    }
  }

  lemma OtherReaders(p: Policy, s: State, step: Step, r: nat)
    requires Enabled(p, s, step)
    ensures var s' := Apply(p, s, step);
            && |s'.readers| == |s.readers| + (if step.NewReader? then 1 else 0)
            && (r < |s.readers| && step !in {Begin(r), Occupied(r), ReadCell(r), Validate(r)} ==>
                  s'.readers[r] == s.readers[r])
            && (|s.readers| <= r < |s'.readers| ==> s'.readers[r].Waiting?)
  {
    if !IsReaderStep(step) {
      WritersLeaveReaders(p, s, step);
    }
  }

  lemma WritersLeaveReaders(p: Policy, s: State, step: Step)
    requires Enabled(p, s, step) && !IsReaderStep(step)
    ensures Apply(p, s, step).readers == s.readers
  {
  }

  /** Whenever a read has answered none, the entry was unoccupied at some instant since the read began. */
  lemma {:induction false} AbsentWasGone(p: Policy, cells: seq<nat>, steps: seq<Step>, r: nat)
    requires var x := Run(Next(p), Init(cells), steps); x.Some? && r < |x.value.readers|
    ensures AnswersRight(p, cells, steps, r, Run(Next(p), Init(cells), steps).value.readers[r])
    decreases |steps|
  {
    if steps != [] {
      var front, step := steps[..|steps| - 1], steps[|steps| - 1];
      assert steps == front + [step];
      RunSnoc(Next(p), Init(cells), front, step);
      var s := Run(Next(p), Init(cells), front).value;
      OtherReaders(p, s, step, r);
      if r < |s.readers| {
        AbsentWasGone(p, cells, front, r);
        if step == Begin(r) || step == Occupied(r) || step == ReadCell(r) || step == Validate(r) {
          OwnAnswer(p, cells, front, step, r, s);
        } else {
          AnswerStays(p, cells, front, step, r, s.readers[r]);
        }
      }
    }
  }

  lemma ReachableStep(p: Policy, cells: seq<nat>, s: State, step: Step, s': State)
    requires Reachable(p, cells, s) && Enabled(p, s, step) && s' == Apply(p, s, step)
    ensures Reachable(p, cells, s')
  {
    LeadsOn(Next(p), Init(cells), s, step);
  }

  /** Two writers on an entry of one cell; the second has tested it for `set`. */
  function Pair(a: Writer, b: Writer, lock: bool, owner: nat, occupied: bool, seqno: nat, live: bool,
                versions: seq<Version>): State
  {
    State(lock, owner, occupied, seqno, [0], live, false, versions, [a, b], [])
  }

  const WHOLE: seq<Version> := [Version(true, [0])]

  const GONE: seq<Version> := [Version(true, [0]), Version(false, [0])]

  lemma BothTested()
    ensures Reachable(AnyWriter, [0], Pair(Tested(Remove), Tested(BlindSet), false, 0, true, 0, true, WHOLE))
  {
    var p := AnyWriter;
    var s0 := Init([0]);
    LeadsNowhere(Next(p), s0);
    var s1 := s0.(writers := [Resting]);
    assert s0.writers + [Resting] == s1.writers;
    ReachableStep(p, [0], s0, NewWriter, s1);
    var s2 := s0.(writers := [Resting, Resting]);
    assert s1.writers + [Resting] == s2.writers;
    ReachableStep(p, [0], s1, NewWriter, s2);
    var s3 := s0.(writers := [Resting, Tested(BlindSet)]);
    ReachableStep(p, [0], s2, Test(1, BlindSet), s3);
    ReachableStep(p, [0], s3, Test(0, Remove),
                  Pair(Tested(Remove), Tested(BlindSet), false, 0, true, 0, true, WHOLE));
  }

  lemma RemovedMeanwhile()
    ensures Reachable(AnyWriter, [0], Pair(Resting, Tested(BlindSet), false, 0, false, 2, false, GONE))
  {
    var p, b := AnyWriter, Tested(BlindSet);
    BothTested();
    var s0 := Pair(Tested(Remove), b, false, 0, true, 0, true, WHOLE);
    var s1 := Pair(Locked(Remove), b, true, 0, true, 0, true, WHOLE);
    ReachableStep(p, [0], s0, Acquire(0), s1);
    var s2 := Pair(Granted(Remove), b, true, 0, true, 0, true, WHOLE);
    ReachableStep(p, [0], s1, Recheck(0), s2);
    var s3 := Pair(Writing(Remove, false), b, true, 0, true, 1, true, WHOLE);
    ReachableStep(p, [0], s2, Open(0), s3);
    var s4 := Pair(Writing(Remove, true), b, true, 0, true, 1, false, WHOLE);
    ReachableStep(p, [0], s3, Drop(0), s4);
    var s5 := Pair(Closing(Remove), b, true, 0, false, 1, false, WHOLE);
    ReachableStep(p, [0], s4, Finish(0), s5);
    var s6 := Pair(Unlocking, b, true, 0, false, 2, false, GONE);
    assert WHOLE + [Version(false, [0])] == GONE;
    ReachableStep(p, [0], s5, Close(0), s6);
    ReachableStep(p, [0], s6, Unlock(0), Pair(Resting, b, false, 0, false, 2, false, GONE));
  }

  /** `set` tests the occupied bit, a removal drops the value, and `set` drops it again. */
  lemma BlindSetDropsTwice() returns (s: State)
    ensures Reachable(AnyWriter, [0], s) && s.fault
  {
    var p := AnyWriter;
    RemovedMeanwhile();
    var s0 := Pair(Resting, Tested(BlindSet), false, 0, false, 2, false, GONE);
    var s1 := Pair(Resting, Locked(BlindSet), true, 1, false, 2, false, GONE);
    ReachableStep(p, [0], s0, Acquire(1), s1);
    var s2 := Pair(Resting, Granted(BlindSet), true, 1, false, 2, false, GONE);
    ReachableStep(p, [0], s1, Recheck(1), s2);
    var s3 := Pair(Resting, Writing(BlindSet, false), true, 1, false, 3, false, GONE);
    ReachableStep(p, [0], s2, Open(1), s3);
    s := Apply(p, s3, Drop(1));
    ReachableStep(p, [0], s3, Drop(1), s);
  }

  /** No run drops a value twice exactly when every writer rechecks under the lock. */
  lemma DropsSafeIffRechecking(p: Policy)
    ensures (forall cells, s :: Reachable(p, cells, s) ==> !s.fault) <==> p.Rechecking?
  {
    if p.Rechecking? {
      forall cells, s | Reachable(p, cells, s) ensures !s.fault {
        RunKeepsDrops(Init(cells), s);
      }
    } else {
      var s := BlindSetDropsTwice();
    }
  }

  // ----- the width of the comparison ------------------------------------------------

  ghost predicate HeldWhole(s: State, buf: seq<nat>) {
    exists k :: 0 <= k < |s.versions| && s.versions[k] == Version(true, buf)
  }

  /** Reader r returned a value after fewer than `bound` bumps. */
  ghost predicate Returned(s: State, r: int, bound: nat) {
    0 <= r < |s.readers| && s.readers[r].Done? && s.readers[r].span < bound
  }

  /** One reader that has read the first of two cells while both were 0; the
      sequence has since reached 2n. */
  ghost predicate HalfRead(s: State, n: nat) {
    && s == State(false, 0, true, 2 * n, s.cells, true, false, s.versions, [Resting], [Reading(0, [0])])
    && |s.versions| == n + 1 && s.versions[0] == Version(true, [0, 0])
    && s.cells == (if n == 0 then [0, 0] else [1, 1])
    && forall k :: 1 <= k <= n ==> s.versions[k] == Version(true, [1, 1])
  }

  lemma HalfReadStart() returns (s: State)
    ensures Reachable(Rechecking, [0, 0], s) && HalfRead(s, 0)
  {
    var p, cs := Rechecking, [0, 0];
    var s0 := Init(cs);
    LeadsNowhere(Next(p), s0);
    var s1 := s0.(writers := [Resting]);
    assert s0.writers + [Resting] == s1.writers;
    ReachableStep(p, cs, s0, NewWriter, s1);
    var s2 := s1.(readers := [Waiting]);
    assert s1.readers + [Waiting] == s2.readers;
    ReachableStep(p, cs, s1, NewReader, s2);
    s := FirstCellRead(s2);
  }

  lemma FirstCellRead(s2: State) returns (s: State)
    requires s2 == Init([0, 0]).(writers := [Resting], readers := [Waiting])
    requires Reachable(Rechecking, [0, 0], s2)
    ensures Reachable(Rechecking, [0, 0], s) && HalfRead(s, 0)
  {
    var p, cs := Rechecking, [0, 0];
    var s1 := s2.(readers := []);
    var s3 := s1.(readers := [Began(0)]);
    ReachableStep(p, cs, s2, Begin(0), s3);
    var s4 := s1.(readers := [Reading(0, [])]);
    ReachableStep(p, cs, s3, Occupied(0), s4);
    s := s1.(readers := [Reading(0, [0])]);
    assert s4.readers[0].buf + [0] == [0];
    assert Apply(p, s4, ReadCell(0)).readers == s.readers;
    ReachableStep(p, cs, s4, ReadCell(0), s);
  }

  /** A writer takes the lock and opens the entry. */
  lemma OpenForMutation(s: State, n: nat) returns (s': State)
    requires Reachable(Rechecking, [0, 0], s) && HalfRead(s, n)
    ensures Reachable(Rechecking, [0, 0], s')
    ensures s' == s.(lock := true, seqno := 2 * n + 1, writers := [Writing(Mutate, false)])
  {
    var p, cs := Rechecking, [0, 0];
    var s1 := s.(writers := [Tested(Mutate)]);
    ReachableStep(p, cs, s, Test(0, Mutate), s1);
    var s2 := s.(writers := [Locked(Mutate)], lock := true);
    ReachableStep(p, cs, s1, Acquire(0), s2);
    var s3 := s.(writers := [Granted(Mutate)], lock := true);
    ReachableStep(p, cs, s2, Recheck(0), s3);
    s' := s.(lock := true, seqno := 2 * n + 1, writers := [Writing(Mutate, false)]);
    ReachableStep(p, cs, s3, Open(0), s');
  }

  /** Both cells become 1, the entry is closed and unlocked. */
  lemma OneMoreMutation(s: State, n: nat) returns (s': State)
    requires Reachable(Rechecking, [0, 0], s) && HalfRead(s, n)
    ensures Reachable(Rechecking, [0, 0], s') && HalfRead(s', n + 1)
  {
    var p, cs := Rechecking, [0, 0];
    var s1 := OpenForMutation(s, n);
    var s2 := s1.(cells := s.cells[0 := 1]);
    ReachableStep(p, cs, s1, WriteCell(0, 0, 1), s2);
    var s3 := s1.(cells := [1, 1]);
    assert s2.cells[1 := 1] == [1, 1];
    ReachableStep(p, cs, s2, WriteCell(0, 1, 1), s3);
    var s4 := s3.(writers := [Closing(Mutate)]);
    ReachableStep(p, cs, s3, Finish(0), s4);
    var s5 := s3.(writers := [Unlocking], seqno := 2 * n + 2, versions := s.versions + [Version(true, [1, 1])]);
    ReachableStep(p, cs, s4, Close(0), s5);
    s' := s5.(writers := [Resting], lock := false);
    ReachableStep(p, cs, s5, Unlock(0), s');
  }

  lemma {:induction false} ManyMutations(n: nat) returns (s: State)
    ensures Reachable(Rechecking, [0, 0], s) && HalfRead(s, n)
  {
    if n == 0 {
      s := HalfReadStart();
    } else {
      s := ManyMutations(n - 1);
      s := OneMoreMutation(s, n - 1);
    }
  }

  /** After exactly 2^32 bumps the comparison passes and the read is torn. */
  lemma WrapTearsRead() returns (s: State)
    ensures Reachable(Rechecking, [0, 0], s) && |s.readers| == 1
    ensures s.readers[0] == Done(0, [0, 1], SEQ_MOD) && !HeldWhole(s, [0, 1])
  {
    var p, cs := Rechecking, [0, 0];
    var s0 := ManyMutations(SEQ_MOD / 2);
    var s1 := s0.(readers := [Reading(0, [0, 1])]);
    assert s0.readers[0].buf + [1] == [0, 1];
    assert Apply(p, s0, ReadCell(0)).readers == s1.readers;
    ReachableStep(p, cs, s0, ReadCell(0), s1);
    s := s1.(readers := [Done(0, [0, 1], SEQ_MOD)]);
    ReachableStep(p, cs, s1, Validate(0), s);
    assert forall k :: 0 <= k < |s.versions| ==> s.versions[k].cells[0] == s.versions[k].cells[1];
  }

  /** A bound on the bumps during a read makes every returned read whole exactly
      when it is at most 2^32. */
  lemma ReadsWholeIffBelowWrap(bound: nat)
    ensures (forall cells, s, r | Reachable(Rechecking, cells, s) && Returned(s, r, bound) ::
               HeldWhole(s, s.readers[r].buf)) <==> bound <= SEQ_MOD
  {
    if bound <= SEQ_MOD {
      forall cells, s, r | Reachable(Rechecking, cells, s) && Returned(s, r, bound)
        ensures HeldWhole(s, s.readers[r].buf)
      {
        ReadsAreWhole(Rechecking, cells, s, r);
      }
    } else {
      var s := WrapTearsRead();
      assert Returned(s, 0, bound);
    }
  }
}
