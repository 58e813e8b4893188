/**
 * How many keys may expire: the counter that the expiry thread trusts, the
 * operations that keep it, and the scan that corrects it.
 *
 * A shard is its slots; an occupied slot is represented by the expiry of its
 * entry, zero for none.  Every access to an entry, to the counter and to the
 * generation is a step of its own, so the steps of operations, of a flush and
 * of the expiry thread interleave in any order.  A flush replaces the tables
 * shard by shard; an update that has found its entry and a chunk that has begun
 * go on with the table that was replaced.
 */
module Ttl {
  import opened Common
  import opened Runs

  type Slots = seq<Option<nat>>

  const INITIAL_SHARD_CAPACITY: nat := 8

  // ------------------------------------------------------------- counting

  predicate HasTtl(x: Option<nat>) { x.Some? && x.value != 0 }

  function One(x: Option<nat>): nat { if HasTtl(x) then 1 else 0 }

  /** The entries of a shard that have an expiry. */
  function Ttls(s: Slots): nat {
    if s == [] then 0 else Ttls(s[..|s| - 1]) + One(s[|s| - 1])
  }

  function Total(shards: seq<Slots>): nat {
    if shards == [] then 0 else Total(shards[..|shards| - 1]) + Ttls(shards[|shards| - 1])
  }

  lemma {:induction false} TtlsConcat(a: Slots, b: Slots)
    ensures Ttls(a + b) == Ttls(a) + Ttls(b)
  {
    if b == [] {
      assert a + b == a;
    } else {
      assert (a + b)[..|a + b| - 1] == a + b[..|b| - 1];
      TtlsConcat(a, b[..|b| - 1]);
    }
  }

  lemma TtlsOne(x: Option<nat>)
    ensures Ttls([x]) == One(x)
  {
    assert [x][..0] == [];
  }

  lemma TtlsUpdate(s: Slots, j: nat, x: Option<nat>)
    requires j < |s|
    ensures Ttls(s[j := x]) + One(s[j]) == Ttls(s) + One(x)
  {
    var a, b := s[..j], s[j + 1..];
    assert s == a + [s[j]] + b && s[j := x] == a + [x] + b;
    TtlsConcat(a + [s[j]], b);
    TtlsConcat(a, [s[j]]);
    TtlsConcat(a + [x], b);
    TtlsConcat(a, [x]);
    TtlsOne(s[j]);
    TtlsOne(x);
  }

  /** An update inside a prefix changes the prefix like the whole; outside it, not at all. */
  lemma PrefixUpdate(s: Slots, j: nat, x: Option<nat>, n: nat)
    requires j < |s| && n <= |s|
    ensures j < n ==> Ttls(s[j := x][..n]) + One(s[j]) == Ttls(s[..n]) + One(x)
    ensures j >= n ==> Ttls(s[j := x][..n]) == Ttls(s[..n])
  {
    if j < n {
      assert s[j := x][..n] == s[..n][j := x];
      TtlsUpdate(s[..n], j, x);
    } else {
      assert s[j := x][..n] == s[..n];
    }
  }

  lemma {:induction false} TotalUpdate(shards: seq<Slots>, i: nat, s: Slots)
    requires i < |shards|
    ensures Total(shards[i := s]) + Ttls(shards[i]) == Total(shards) + Ttls(s)
  {
    var front := shards[..|shards| - 1];
    if i == |shards| - 1 {
      assert shards[i := s][..|shards| - 1] == front;
    } else {
      assert shards[i := s][..|shards| - 1] == front[i := s];
      TotalUpdate(front, i, s);
    }
  }

  lemma TotalPrefixUpdate(shards: seq<Slots>, i: nat, s: Slots, n: nat)
    requires i < |shards| && n <= |shards|
    ensures i < n ==> Total(shards[i := s][..n]) + Ttls(shards[i]) == Total(shards[..n]) + Ttls(s)
    ensures i >= n ==> Total(shards[i := s][..n]) == Total(shards[..n])
  {
    if i < n {
      assert shards[i := s][..n] == shards[..n][i := s];
      TotalUpdate(shards[..n], i, s);
    } else {
      assert shards[i := s][..n] == shards[..n];
    }
  }

  lemma {:induction false} TotalAtLeast(shards: seq<Slots>, i: nat)
    requires i < |shards|
    ensures Total(shards[..i]) + Ttls(shards[i]) == Total(shards[..i + 1]) <= Total(shards)
    decreases |shards|
  {
    assert shards[..i + 1][..i] == shards[..i];
    if i == |shards| - 1 {
      assert shards[..i + 1] == shards;
    } else {
      var front := shards[..|shards| - 1];
      TotalAtLeast(front, i);
      assert front[..i] == shards[..i] && front[..i + 1] == shards[..i + 1];
    }
  }

  // ------------------------------------------------------------ the state

  /** The table that a caller found its entry in: the shard's own, or one that a flush has replaced. */
  datatype Where = Here | Replaced(k: nat)

  /** Where a caller is inside an operation. */
  datatype Pc =
    | Idle
    | Found(op: Op, where: Where)  // update: entry found, to be locked and written
    | Bumped(expires: nat)    // counter-first set: generation raised
    | Counted(expires: nat)   // counter-first set: counter raised, entry to be written
    | Written                 // entry-first: expiry written, generation to be raised
    | Raising                 // entry-first: generation raised, counter to be raised
    | Uncounting              // expiry taken off the entry, counter to be lowered
    | Flushing(k: nat)        // flush: tables of the shards below k replaced, then counter to be zeroed
    | Zeroed                  // flush: counter zeroed, generation to be raised

  /** Where the expiry thread is.  `stale` tells which replaced table it reads, if any. */
  datatype Phase =
    | Resting                                                        // generation to be read
    | Between                                                        // before a chunk
    | Entered(max: nat)                                              // saw a counter above zero
    | Visiting(first: nat, left: nat, now: nat, stale: Option<nat>)
    | Removing(first: nat, left: nat, now: nat, stale: Option<nat>) // lowered the counter, entry to be removed
    | Ended                                                          // generation to be compared
    | Checked                                                        // counter to be read
    | Observed(n: nat)                                               // generation to be compared again
    | Armed(n: nat)                                                  // counter to be exchanged

  datatype Scan = Scan(phase: Phase, shard: nat, slot: nat, live: nat, gen: nat, caps: seq<nat>)

  /** `gone` holds the tables that flushes have replaced. */
  datatype State = State(shards: seq<Slots>, count: nat, gen: nat, calls: seq<Pc>, scan: Scan, gone: seq<Slots>)

  datatype Op =
    | Set(i: nat, j: nat, expires: nat)
    | SetString(i: nat, j: nat, expires: nat)
    | Expire(i: nat, j: nat, at: nat, now: nat)
    | Persist(i: nat, j: nat, now: nat)
    | GetEx(i: nat, j: nat, expires: nat, now: nat)
    | Del(i: nat, j: nat)
    | Flush

  datatype Step =
    | Call(c: nat, op: Op)            // the first step of an operation
    | Go(c: nat)                      // its next step
    | Insert(c: nat, i: nat, j: nat)  // a counted set writes its entry
    | Refuse(c: nat)                  // a counted set finds the store full
    | Rehash(i: nat, slots: Slots, place: seq<nat>)  // what was in slot j is now in slot place[j]
    | Thread(now: nat, max: nat)

  predicate InRange(s: State, i: nat, j: nat) { i < |s.shards| && j < |s.shards[i]| }

  predicate Expired(e: nat, now: nat) { e != 0 && e <= now }

  /** The operation looks its entry up and then updates it in place. */
  predicate Updates(op: Op) { op.Expire? || op.Persist? || op.GetEx? }

  /** The operation can begin. */
  predicate Ready(s: State, op: Op) { op.Flush? || InRange(s, op.i, op.j) }

  predicate InChunk(s: State) { s.scan.phase.Visiting? || s.scan.phase.Removing? }

  predicate Possible(s: State, step: Step) {
    match step
    case Call(c, op) => c < |s.calls| && s.calls[c].Idle? && Ready(s, op)
    case Go(c) => c < |s.calls| && !s.calls[c].Idle? && !s.calls[c].Counted?
    case Insert(c, i, j) => c < |s.calls| && s.calls[c].Counted? && InRange(s, i, j)
    case Refuse(c) => c < |s.calls| && s.calls[c].Counted?
    case Rehash(i, slots, place) =>
      i < |s.shards| && Ttls(slots) == Ttls(s.shards[i]) && Moved(s.shards[i], slots, place) &&
      (i == s.scan.shard ==> !InChunk(s) && !(s.scan.slot > 0 && i < |s.scan.caps| && |slots| == s.scan.caps[i]))
    case Thread(_, max) => |s.scan.caps| == |s.shards| && InPlace(s) && max > 0
  }

  /** Every entry has a place of its own in the new table. */
  predicate Moved(t: Slots, slots: Slots, place: seq<nat>) {
    && |place| == |t|
    && (forall j :: 0 <= j < |t| && t[j].Some? ==> place[j] < |slots| && slots[place[j]] == t[j])
    && (forall j, k :: 0 <= j < k < |t| && t[j].Some? && t[k].Some? ==> place[j] != place[k])
  }

  /** The thread's position lies in the table it reads. */
  predicate InPlace(s: State) {
    match s.scan.phase
    case Between => s.scan.shard < |s.shards|
    case Entered(_) => s.scan.shard < |s.shards|
    case Visiting(_, _, _, _) => s.scan.shard < |s.shards|
    case Removing(_, _, _, _) => s.scan.shard < |s.shards| && s.scan.slot < |Table(s)|
    case _ => true
  }

  /** The table that the thread reads. */
  function Table(s: State): Slots
    requires s.scan.shard < |s.shards|
  {
    if InChunk(s) && s.scan.phase.stale.Some? && s.scan.phase.stale.value < |s.gone|
    then s.gone[s.scan.phase.stale.value] else s.shards[s.scan.shard]
  }

  function Put(s: State, i: nat, j: nat, x: Option<nat>): State
    requires InRange(s, i, j)
  {
    s.(shards := s.shards[i := s.shards[i][j := x]])
  }

  function At(s: State, c: nat, pc: Pc): State
    requires c < |s.calls|
  {
    s.(calls := s.calls[c := pc])
  }

  function Less(a: nat, b: nat): nat { if a <= b then 0 else a - b }

  function Blank(n: nat): Slots { seq(n, _ => None) }

  /** A caller that has found its entry in the shard stays with the table it found it in. */
  function Stranded(pc: Pc, i: nat, k: nat): Pc {
    if pc.Found? && pc.where.Here? && Updates(pc.op) && pc.op.i == i then Found(pc.op, Replaced(k)) else pc
  }

  function AllStranded(calls: seq<Pc>, i: nat, k: nat): seq<Pc> {
    seq(|calls|, c requires 0 <= c < |calls| => Stranded(calls[c], i, k))
  }

  /** The table of a shard is replaced; callers and a thread inside it go on with the old one. */
  function ClearShard(s: State, i: nat): State
    requires i < |s.shards|
  {
    s.(shards := s.shards[i := Blank(INITIAL_SHARD_CAPACITY)], gone := s.gone + [s.shards[i]],
       calls := AllStranded(s.calls, i, |s.gone|),
       scan := if InChunk(s) && s.scan.shard == i && s.scan.phase.stale.None?
               then s.scan.(phase := s.scan.phase.(stale := Some(|s.gone|))) else s.scan)
  }

  /** A caller that has found its entry follows it; one whose entry was removed will do nothing. */
  function Following(pc: Pc, i: nat, t: Slots, place: seq<nat>): Pc {
    if pc.Found? && pc.where.Here? && Updates(pc.op) && pc.op.i == i then
      if pc.op.j < |t| && pc.op.j < |place| && t[pc.op.j].Some? then Found(Relocated(pc.op, place[pc.op.j]), Here)
      else Idle
    else pc
  }

  function Relocated(op: Op, j: nat): Op {
    match op
    case Expire(i, _, at, now) => Expire(i, j, at, now)
    case Persist(i, _, now) => Persist(i, j, now)
    case GetEx(i, _, expires, now) => GetEx(i, j, expires, now)
    case _ => op
  }

  function AllFollowing(calls: seq<Pc>, i: nat, t: Slots, place: seq<nat>): seq<Pc> {
    seq(|calls|, c requires 0 <= c < |calls| => Following(calls[c], i, t, place))
  }

  /** The entry that an update has found, as it is now. */
  function Entry(s: State, op: Op, where: Where): Option<nat>
    requires Updates(op)
  {
    match where
    case Here => if InRange(s, op.i, op.j) then s.shards[op.i][op.j] else None
    case Replaced(k) => if k < |s.gone| && op.j < |s.gone[k]| then s.gone[k][op.j] else None
  }

  /** A new expiry for an entry that is there. */
  function Renewed(s: State, op: Op, where: Where, e: nat): State
    requires Updates(op) && Entry(s, op, where).Some?
  {
    match where
    case Here => Put(s, op.i, op.j, Some(e))
    case Replaced(k) => s.(gone := s.gone[k := s.gone[k][op.j := Some(e)]])
  }

  /** What an update makes of the expiry of a live entry. */
  function Renewal(op: Op): nat
    requires Updates(op)
  {
    match op
    case Expire(_, _, at, _) => at
    case GetEx(_, _, expires, _) => expires
    case Persist(_, _, _) => 0
  }

  /** Where an update goes on after an entry with the given expiry. */
  function Accounting(op: Op, was: nat): Pc
    requires Updates(op)
  {
    match op
    case Expire(_, _, _, _) => if was == 0 then Written else Idle
    case GetEx(_, _, expires, _) =>
      if was == 0 && expires != 0 then Written else if was != 0 && expires == 0 then Uncounting else Idle
    case Persist(_, _, _) => if was != 0 then Uncounting else Idle
  }

  /** Under the entry's lock: an entry that was removed or has expired stays as it is. */
  function Update(s: State, c: nat, op: Op, where: Where): State
    requires c < |s.calls| && Updates(op)
  {
    var x := Entry(s, op, where);
    if x.None? || Expired(x.value, op.now) then At(s, c, Idle)
    else At(Renewed(s, op, where, Renewal(op)), c, Accounting(op, x.value))
  }

  /** The first step of an operation. */
  function Begin(s: State, c: nat, op: Op): State
    requires c < |s.calls| && Ready(s, op)
  {
    match op
    case Set(i, j, expires) =>
      if expires == 0 then Put(s, i, j, Some(0)) else At(s.(gen := s.gen + 1), c, Bumped(expires))
    case SetString(i, j, expires) =>
      At(Put(s, i, j, Some(expires)), c, if expires == 0 then Idle else Written)
    case Expire(_, _, _, _) => At(s, c, Found(op, Here))
    case Persist(_, _, _) => At(s, c, Found(op, Here))
    case GetEx(_, _, _, _) => At(s, c, Found(op, Here))
    case Del(i, j) => Put(s, i, j, None)
    case Flush => At(s, c, Flushing(0))
  }

  /** The next step of an operation. */
  function Continue(s: State, c: nat): State
    requires c < |s.calls| && !s.calls[c].Idle? && !s.calls[c].Counted?
  {
    match s.calls[c]
    case Bumped(expires) => At(s.(count := s.count + 1), c, Counted(expires))
    case Written => At(s.(gen := s.gen + 1), c, Raising)
    case Raising => At(s.(count := s.count + 1), c, Idle)
    case Uncounting => At(s.(count := Less(s.count, 1)), c, Idle)
    case Found(op, where) => if Updates(op) then Update(s, c, op, where) else At(s, c, Idle)
    case Flushing(k) =>
      if k < |s.shards| then At(ClearShard(s, k), c, Flushing(k + 1)) else At(s.(count := 0), c, Zeroed)
    case Zeroed => At(s.(gen := s.gen + 1), c, Idle)
  }

  function Rest(s: State): State { s.(scan := s.scan.(phase := Resting, shard := 0, slot := 0, live := 0)) }

  /** The shard is done: the next one, or the end of the pass. */
  function NextShard(s: State): State {
    s.(scan := s.scan.(phase := if s.scan.shard + 1 < |s.shards| then Between else Ended,
                       shard := s.scan.shard + 1, slot := 0))
  }

  /** After a chunk of a table with the given capacity that began at slot `first`. */
  function AfterChunk(s: State, first: nat, cap: nat): State
    requires s.scan.shard < |s.scan.caps|
  {
    if first != 0 && s.scan.caps[s.scan.shard] != cap then Rest(s)
    else
      var s' := if first == 0 then s.(scan := s.scan.(caps := s.scan.caps[s.scan.shard := cap])) else s;
      if s.scan.slot < cap then s'.(scan := s'.scan.(phase := Between)) else NextShard(s')
  }

  /** One slot of a chunk, or its end. */
  function Visit(s: State): State
    requires s.scan.phase.Visiting? && s.scan.shard < |s.shards| == |s.scan.caps|
  {
    var p := s.scan.phase;
    var t := Table(s);
    if p.left == 0 || s.scan.slot >= |t| then AfterChunk(s, p.first, |t|)
    else
      var x := t[s.scan.slot];
      if x.Some? && Expired(x.value, p.now) then
        s.(count := Less(s.count, 1), scan := s.scan.(phase := Removing(p.first, p.left, p.now, p.stale)))
      else
        s.(scan := s.scan.(phase := Visiting(p.first, p.left - 1, p.now, p.stale),
                           slot := s.scan.slot + 1, live := s.scan.live + One(x)))
  }

  /** The expired entry goes, in the table that the thread reads. */
  function Remove(s: State): State
    requires s.scan.phase.Removing? && s.scan.shard < |s.shards| && s.scan.slot < |Table(s)|
  {
    var p, j := s.scan.phase, s.scan.slot;
    var s' := if p.stale.Some? && p.stale.value < |s.gone|
              then s.(gone := s.gone[p.stale.value := s.gone[p.stale.value][j := None]])
              else Put(s, s.scan.shard, j, None);
    s'.(scan := s.scan.(phase := Visiting(p.first, Less(p.left, 1), p.now, p.stale), slot := j + 1))
  }

  /** The next step of the expiry thread. */
  function Advance(s: State, now: nat, max: nat): State
    requires |s.scan.caps| == |s.shards| && InPlace(s)
  {
    match s.scan.phase
    case Resting => s.(scan := Rest(s).scan.(phase := Between, gen := s.gen))
    case Between => if s.count == 0 then Rest(s) else s.(scan := s.scan.(phase := Entered(max)))
    case Entered(m) =>
      if s.count == 0 then AfterChunk(s, s.scan.slot, 0)
      else s.(scan := s.scan.(phase := Visiting(s.scan.slot, m, now, None)))
    case Visiting(_, _, _, _) => Visit(s)
    case Removing(_, _, _, _) => Remove(s)
    case Ended => if s.gen != s.scan.gen then Rest(s) else s.(scan := s.scan.(phase := Checked))
    case Checked => s.(scan := s.scan.(phase := Observed(s.count)))
    case Observed(n) => if s.gen != s.scan.gen then Rest(s) else s.(scan := s.scan.(phase := Armed(n)))
    case Armed(n) => Rest(if s.count == n then s.(count := s.scan.live) else s)
  }

  function Apply(s: State, step: Step): State
    requires Possible(s, step)
  {
    match step
    case Call(c, op) => Begin(s, c, op)
    case Go(c) => Continue(s, c)
    case Insert(c, i, j) => At(Put(s, i, j, Some(s.calls[c].expires)), c, Idle)
    case Refuse(c) => At(s, c, Idle)
    case Rehash(i, slots, place) =>
      s.(shards := s.shards[i := slots], calls := AllFollowing(s.calls, i, s.shards[i], place))
    case Thread(now, max) => Advance(s, now, max)
  }

  ghost predicate Init(s: State) {
    && |s.shards| == |s.scan.caps| > 0 && Total(s.shards) == 0 && s.count == 0 && s.scan.phase.Resting?
    && s.scan.shard == 0 && s.scan.slot == 0 && s.scan.live == 0
    && forall c :: 0 <= c < |s.calls| ==> s.calls[c].Idle?
  }

  // ------------------------------------------------------------- overlaps

  function Sum(calls: seq<Pc>, w: Pc -> nat): nat {
    if calls == [] then 0 else Sum(calls[..|calls| - 1], w) + w(calls[|calls| - 1])
  }

  /** Entries that carry an expiry and are not yet counted. */
  function Due(pc: Pc): nat { if pc.Written? || pc.Raising? then 1 else 0 }

  /** Counts that no entry carries: not yet, or no longer. */
  function Held(pc: Pc): nat { if pc.Counted? || pc.Uncounting? then 1 else 0 }

  /** Operations between raising the generation and their last step. */
  function Adding(pc: Pc): nat { if pc.Bumped? || pc.Counted? || pc.Raising? then 1 else 0 }

  function Lowering(pc: Pc): nat { if pc.Uncounting? then 1 else 0 }

  function Clearing(pc: Pc): nat { if pc.Flushing? then 1 else 0 }

  /** The operation may take the expiry off an entry. */
  predicate Takes(op: Op) { op.Persist? || (op.GetEx? && op.expires == 0) }

  /** Operations that have found an entry and may take its expiry off. */
  function Taking(pc: Pc): nat { if pc.Found? && Takes(pc.op) then 1 else 0 }

  /** The next step of the caller takes the expiry off an entry in the tables. */
  predicate Uncounts(s: State, c: nat) {
    && c < |s.calls| && s.calls[c].Found? && s.calls[c].where.Here? && Takes(s.calls[c].op)
    && var x := Entry(s, s.calls[c].op, Here);
       HasTtl(x) && !Expired(x.value, s.calls[c].op.now)
  }

  /** A step of an operation on a key. */
  predicate KeyStep(s: State, step: Step)
    requires Possible(s, step)
  {
    match step
    case Call(_, op) => !op.Flush?
    case Go(c) => !s.calls[c].Flushing? && !s.calls[c].Zeroed?
    case Insert(_, _, _) => true
    case Refuse(_) => true
    case _ => false
  }

  /** The ways in which a step can fall into the middle of something else and do harm. */
  datatype Overlap =
    | FlushInEnd         // the counter is zeroed between its reading and its exchange at the end of a pass
    | FlushInChunk       // a flush replaces the table that a chunk is in
    | FlushInOperation   // a flush begins while a count is held that no entry carries, or may be
    | OperationInFlush   // an operation steps between the beginning and the zeroing of a flush
    | PassBeginsInAdd    // a pass reads the generation inside an operation that has raised it
    | PassEndsInUncount  // a pass reads the counter inside an operation that has yet to lower it
    | UncountInRemoval   // an operation takes the expiry off the entry that the scan is removing

  predicate Makes(s: State, step: Step, o: Overlap)
    requires Possible(s, step)
  {
    match o
    case FlushInEnd =>
      step.Go? && s.calls[step.c].Flushing? && s.calls[step.c].k >= |s.shards| &&
      (s.scan.phase.Observed? || s.scan.phase.Armed?)
    case FlushInChunk =>
      step.Go? && s.calls[step.c].Flushing? && s.calls[step.c].k < |s.shards| &&
      InChunk(s) && s.scan.shard == s.calls[step.c].k
    case FlushInOperation =>
      step.Call? && step.op.Flush? && (Sum(s.calls, Held) > 0 || Sum(s.calls, Taking) > 0)
    case OperationInFlush => KeyStep(s, step) && Sum(s.calls, Clearing) > 0
    case PassBeginsInAdd => step.Thread? && s.scan.phase.Resting? && Sum(s.calls, Adding) > 0
    case PassEndsInUncount => step.Thread? && s.scan.phase.Checked? && Sum(s.calls, Lowering) > 0
    case UncountInRemoval =>
      step.Go? && Uncounts(s, step.c) && s.scan.phase.Removing? &&
      s.calls[step.c].op.i == s.scan.shard && s.calls[step.c].op.j == s.scan.slot
  }

  /** The machine in which only the given overlaps may happen. */
  ghost function Next(allowed: set<Overlap>): (State, Step) -> Option<State> {
    (s: State, step: Step) =>
      if Possible(s, step) && forall o :: Makes(s, step, o) ==> o in allowed then Some(Apply(s, step)) else None
  }

  // -------------------------------------------------------- the invariant

  /** The table under the scan is the one the scan began this shard with. */
  predicate SameTable(s: State)
    requires s.scan.shard < |s.shards| == |s.scan.caps|
  {
    var first := if InChunk(s) then s.scan.phase.first else s.scan.slot;
    first == 0 || s.scan.caps[s.scan.shard] == |s.shards[s.scan.shard]|
  }

  /** The entries with an expiry in the part of the table that the scan has passed. */
  function Covered(s: State): nat
    requires s.scan.shard <= |s.shards| == |s.scan.caps|
  {
    Total(s.shards[..s.scan.shard]) +
    if s.scan.shard < |s.shards| && SameTable(s) && s.scan.slot <= |s.shards[s.scan.shard]|
    then Ttls(s.shards[s.scan.shard][..s.scan.slot]) else 0
  }

  /** One while the counter has been lowered for an entry that is still there. */
  function Lost(s: State): nat {
    if s.scan.phase.Removing? && InRange(s, s.scan.shard, s.scan.slot)
    then One(s.shards[s.scan.shard][s.scan.slot]) else 0
  }

  predicate Passing(p: Phase) {
    p.Between? || p.Entered? || p.Visiting? || p.Removing? || p.Ended? || p.Checked?
  }

  ghost predicate Shape(s: State) {
    && |s.shards| == |s.scan.caps| > 0 && s.scan.shard <= |s.shards|
    && (!s.scan.phase.Resting? ==> s.scan.gen <= s.gen)
    && match s.scan.phase {
         case Between => s.scan.shard < |s.shards| && (s.scan.slot == 0 || s.scan.slot < s.scan.caps[s.scan.shard])
         case Entered(_) => s.scan.shard < |s.shards| && (s.scan.slot == 0 || s.scan.slot < s.scan.caps[s.scan.shard])
         case Visiting(_, _, _, stale) =>
           s.scan.shard < |s.shards| && stale.None? && (SameTable(s) ==> s.scan.slot <= |s.shards[s.scan.shard]|)
         case Removing(_, _, _, stale) =>
           s.scan.shard < |s.shards| && stale.None? && s.scan.slot < |s.shards[s.scan.shard]|
         case Resting => true
         case _ => s.scan.shard == |s.shards|
       }
  }

  /** Entries with an expiry are counted, or about to be, by the counter. */
  ghost predicate CounterInv(s: State) {
    Total(s.shards) + Sum(s.calls, Held) <= s.count + Sum(s.calls, Due) + Lost(s)
  }

  /** Those that the scan has passed are counted by the scan, as long as the generation stands. */
  ghost predicate ScanInv(s: State)
    requires Shape(s)
  {
    && (Passing(s.scan.phase) && s.scan.gen == s.gen ==> Covered(s) <= s.scan.live + Sum(s.calls, Due))
    && (!s.scan.phase.Resting? && s.scan.gen == s.gen ==> Sum(s.calls, Adding) == 0)
  }

  /** An exchange that finds the counter as it was read replaces it by enough. */
  ghost predicate EndInv(s: State) {
    (s.scan.phase.Observed? && s.scan.gen == s.gen) || s.scan.phase.Armed? ==>
      Total(s.shards) + Sum(s.calls, Held) + s.scan.phase.n <= s.scan.live + s.count + Sum(s.calls, Due)
  }

  /** While a flush clears, no count is held, and what is cleared stays empty. */
  ghost predicate FlushInv(s: State) {
    Sum(s.calls, Clearing) > 0 ==>
      && Sum(s.calls, Held) == 0 && Sum(s.calls, Taking) == 0
      && forall c :: 0 <= c < |s.calls| && s.calls[c].Flushing? ==> ClearedBelow(s.shards, s.calls[c].k)
  }

  ghost predicate ClearedBelow(shards: seq<Slots>, k: nat) {
    forall i :: 0 <= i < k && i < |shards| ==> Ttls(shards[i]) == 0
  }

  /** Whoever may take an expiry off has found the entry in a table that is not replaced. */
  ghost predicate FoundInv(calls: seq<Pc>) {
    forall c :: 0 <= c < |calls| && calls[c].Found? && Takes(calls[c].op) ==> calls[c].where.Here?
  }

  ghost predicate Inv(s: State) {
    Shape(s) && CounterInv(s) && ScanInv(s) && EndInv(s) && FlushInv(s) && FoundInv(s.calls)
  }

  lemma {:induction false} NoneCounted(n: nat)
    ensures Ttls(Blank(n)) == 0
  {
    if n > 0 {
      assert Blank(n)[..n - 1] == Blank(n - 1);
      NoneCounted(n - 1);
    } else {
      assert Blank(0) == [];
    }
  }

  lemma {:induction false} EmptyShards(shards: seq<Slots>)
    requires forall i :: 0 <= i < |shards| ==> Ttls(shards[i]) == 0
    ensures Total(shards) == 0
  {
    if shards != [] {
      EmptyShards(shards[..|shards| - 1]);
    }
  }

  // ------------------------------------------------------ every step keeps it

  lemma {:induction false} SumUpdate(calls: seq<Pc>, c: nat, pc: Pc, w: Pc -> nat)
    requires c < |calls|
    ensures Sum(calls[c := pc], w) + w(calls[c]) == Sum(calls, w) + w(pc)
  {
    var front := calls[..|calls| - 1];
    if c == |calls| - 1 {
      assert calls[c := pc][..|calls| - 1] == front;
    } else {
      assert calls[c := pc][..|calls| - 1] == front[c := pc];
      SumUpdate(front, c, pc, w);
    }
  }

  lemma {:induction false} SumBounds(calls: seq<Pc>, c: nat, w: Pc -> nat)
    requires c < |calls|
    ensures w(calls[c]) <= Sum(calls, w)
  {
    if c < |calls| - 1 {
      SumBounds(calls[..|calls| - 1], c, w);
    }
  }

  lemma {:induction false} SumIdle(calls: seq<Pc>, w: Pc -> nat)
    requires w(Idle) == 0 && forall c :: 0 <= c < |calls| ==> calls[c].Idle?
    ensures Sum(calls, w) == 0
  {
    if calls != [] {
      SumIdle(calls[..|calls| - 1], w);
    }
  }

  /** All the sums when one caller moves. */
  lemma Moves(s: State, c: nat, pc: Pc)
    requires c < |s.calls|
    ensures var before, after := s.calls, At(s, c, pc).calls;
            && Sum(after, Due) + Due(before[c]) == Sum(before, Due) + Due(pc)
            && Sum(after, Held) + Held(before[c]) == Sum(before, Held) + Held(pc)
            && Sum(after, Adding) + Adding(before[c]) == Sum(before, Adding) + Adding(pc)
            && Sum(after, Clearing) + Clearing(before[c]) == Sum(before, Clearing) + Clearing(pc)
    ensures Due(s.calls[c]) <= Sum(s.calls, Due) && Held(s.calls[c]) <= Sum(s.calls, Held)
    ensures Adding(s.calls[c]) <= Sum(s.calls, Adding) && Clearing(s.calls[c]) <= Sum(s.calls, Clearing)
  {
    SumUpdate(s.calls, c, pc, Due);
    SumUpdate(s.calls, c, pc, Held);
    SumUpdate(s.calls, c, pc, Adding);
    SumUpdate(s.calls, c, pc, Clearing);
    SumBounds(s.calls, c, Due);
    SumBounds(s.calls, c, Held);
    SumBounds(s.calls, c, Adding);
    SumBounds(s.calls, c, Clearing);
  }

  /** Writing one slot moves the counts by at most what the slot held and holds. */
  lemma PutCounts(s: State, i: nat, j: nat, x: Option<nat>)
    requires InRange(s, i, j) && s.scan.shard <= |s.shards| == |s.scan.caps|
    ensures Total(Put(s, i, j, x).shards) + One(s.shards[i][j]) == Total(s.shards) + One(x)
    ensures Covered(Put(s, i, j, x)) <= Covered(s) + Less(One(x), One(s.shards[i][j]))
    ensures Lost(Put(s, i, j, x)) ==
            if s.scan.phase.Removing? && i == s.scan.shard && j == s.scan.slot then One(x) else Lost(s)
  {
    var slots := s.shards[i];
    TtlsUpdate(slots, j, x);
    TotalUpdate(s.shards, i, slots[j := x]);
    TotalPrefixUpdate(s.shards, i, slots[j := x], s.scan.shard);
    if s.scan.shard == i && s.scan.slot <= |slots| {
      PrefixUpdate(slots, j, x, s.scan.slot);
    }
  }

  /** What the counter lacks, apart from an entry under removal. */
  function Lacking(s: State): int {
    Total(s.shards) + Sum(s.calls, Held) - s.count - Sum(s.calls, Due)
  }

  /** A step of an operation that does not make the counter or the scan lack more. */
  lemma KeyKeepsInv(s: State, s': State)
    requires Inv(s) && Shape(s') && s'.scan == s.scan && s.gen <= s'.gen && Sum(s'.calls, Clearing) == 0
    requires FoundInv(s'.calls)
    requires Lacking(s') - Lost(s') <= Lacking(s) - Lost(s)
    requires !s.scan.phase.Resting? && s.scan.gen == s'.gen ==>
               Sum(s'.calls, Adding) == 0 &&
               Covered(s') - Sum(s'.calls, Due) <= Covered(s) - Sum(s.calls, Due)
    ensures Inv(s')
  {
  }

  predicate NoneAllowed(s: State, step: Step)
    requires Possible(s, step)
  {
    forall o :: !Makes(s, step, o)
  }

  lemma PutShape(s: State, i: nat, j: nat, x: Option<nat>)
    requires Shape(s) && InRange(s, i, j)
    ensures Shape(Put(s, i, j, x))
  {
  }

  /** Where tables and scan stay, so does everything that is read off them. */
  lemma TablesStay(s: State, s': State)
    requires Shape(s) && s'.shards == s.shards && s'.scan == s.scan && s.gen <= s'.gen
    ensures Shape(s') && Covered(s') == Covered(s) && Lost(s') == Lost(s)
  {
  }

  /** A caller that nothing is counted for. */
  predicate Weightless(pc: Pc) { pc.Idle? || pc.Found? }

  /** One entry is written and a caller moves. */
  lemma PutBalance(s: State, c: nat, i: nat, j: nat, x: Option<nat>, pc: Pc)
    requires Shape(s) && InRange(s, i, j) && c < |s.calls| && Weightless(s.calls[c])
    requires pc.Idle? || pc.Written? || pc.Uncounting?
    requires One(x) <= One(s.shards[i][j]) + Due(pc)
    requires pc.Uncounting? ==> One(x) < One(s.shards[i][j]) &&
                                !(s.scan.phase.Removing? && i == s.scan.shard && j == s.scan.slot)
    ensures var s' := At(Put(s, i, j, x), c, pc);
            && Shape(s')
            && Lacking(s') - Lost(s') <= Lacking(s) - Lost(s)
            && Covered(s') - Sum(s'.calls, Due) <= Covered(s) - Sum(s.calls, Due)
            && Sum(s'.calls, Adding) == Sum(s.calls, Adding) && Sum(s'.calls, Clearing) == Sum(s.calls, Clearing)
  {
    var s1 := Put(s, i, j, x);
    PutCounts(s, i, j, x);
    PutShape(s, i, j, x);
    Moves(s1, c, pc);
    TablesStay(s1, At(s1, c, pc));
  }

  lemma FoundKept(calls: seq<Pc>, c: nat, pc: Pc)
    requires FoundInv(calls) && c < |calls| && (pc.Found? && Takes(pc.op) ==> pc.where.Here?)
    ensures FoundInv(calls[c := pc])
  {
  }

  lemma KeyPut(s: State, c: nat, i: nat, j: nat, x: Option<nat>, pc: Pc)
    requires Inv(s) && InRange(s, i, j) && c < |s.calls| && Weightless(s.calls[c]) && Sum(s.calls, Clearing) == 0
    requires pc.Idle? || pc.Written? || pc.Uncounting?
    requires One(x) <= One(s.shards[i][j]) + Due(pc)
    requires pc.Uncounting? ==> One(x) < One(s.shards[i][j]) &&
                                !(s.scan.phase.Removing? && i == s.scan.shard && j == s.scan.slot)
    ensures Inv(At(Put(s, i, j, x), c, pc))
  {
    PutBalance(s, c, i, j, x, pc);
    FoundKept(s.calls, c, pc);
    KeyKeepsInv(s, At(Put(s, i, j, x), c, pc));
  }

  /** A caller moves and no table in use changes. */
  lemma KeyMove(s: State, c: nat, pc: Pc, gone: seq<Slots>)
    requires Inv(s) && c < |s.calls| && Weightless(s.calls[c]) && Sum(s.calls, Clearing) == 0
    requires pc.Idle? || pc.Written? || (pc.Found? && pc.where.Here?)
    ensures Inv(At(s, c, pc).(gone := gone))
  {
    var s' := At(s, c, pc).(gone := gone);
    Moves(s, c, pc);
    TablesStay(s, s');
    FoundKept(s.calls, c, pc);
    KeyKeepsInv(s, s');
  }

  lemma StepBegin(s: State, c: nat, op: Op)
    requires Inv(s) && Possible(s, Call(c, op)) && NoneAllowed(s, Call(c, op)) && !op.Flush?
    ensures Inv(Begin(s, c, op))
  {
    assert !Makes(s, Call(c, op), OperationInFlush);
    assert s.calls[c := Idle] == s.calls;
    match op {
      case Set(i, j, expires) =>
        if expires == 0 {
          KeyPut(s, c, i, j, Some(0), Idle);
        } else {
          Moves(s, c, Bumped(expires));
          FoundKept(s.calls, c, Bumped(expires));
          KeyKeepsInv(s, Begin(s, c, op));
        }
      case SetString(i, j, expires) => KeyPut(s, c, i, j, Some(expires), if expires == 0 then Idle else Written);
      case Del(i, j) => KeyPut(s, c, i, j, None, Idle);
      case _ => KeyMove(s, c, Found(op, Here), s.gone);
    }
  }

  /** An update writes the entry it has found, wherever that is now. */
  lemma StepUpdate(s: State, c: nat)
    requires Inv(s) && Possible(s, Go(c)) && NoneAllowed(s, Go(c)) && s.calls[c].Found? && Updates(s.calls[c].op)
    ensures Inv(Continue(s, c))
  {
    assert !Makes(s, Go(c), OperationInFlush) && !Makes(s, Go(c), UncountInRemoval);
    var op, where := s.calls[c].op, s.calls[c].where;
    var x := Entry(s, op, where);
    if x.None? || Expired(x.value, op.now) {
      KeyMove(s, c, Idle, s.gone);
    } else {
      var pc := Accounting(op, x.value);
      if where.Here? {
        KeyPut(s, c, op.i, op.j, Some(Renewal(op)), pc);
      } else {
        KeyMove(s, c, pc, Renewed(s, op, where, Renewal(op)).gone);
      }
    }
  }

  lemma GoBalance(s: State, c: nat)
    requires Shape(s) && Possible(s, Go(c)) && KeyStep(s, Go(c)) && !s.calls[c].Found?
    ensures var s' := Continue(s, c);
            && Shape(s') && Lacking(s') <= Lacking(s) && Lost(s') == Lost(s) && Covered(s') == Covered(s)
            && Sum(s'.calls, Clearing) == Sum(s.calls, Clearing)
            && (s'.gen == s.gen ==> Sum(s.calls, Adding) > 0 || Sum(s'.calls, Due) == Sum(s.calls, Due))
            && (s'.gen == s.gen ==> Sum(s'.calls, Adding) <= Sum(s.calls, Adding))
  {
    var s' := Continue(s, c);
    TablesStay(s, s');
    Moves(s, c, s'.calls[c]);
    assert s'.calls == At(s, c, s'.calls[c]).calls;
  }

  lemma StepGo(s: State, c: nat)
    requires Inv(s) && Possible(s, Go(c)) && NoneAllowed(s, Go(c)) && KeyStep(s, Go(c))
    ensures Inv(Continue(s, c))
  {
    assert !Makes(s, Go(c), OperationInFlush);
    if s.calls[c].Found? {
      if Updates(s.calls[c].op) { StepUpdate(s, c); } else { KeyMove(s, c, Idle, s.gone); }
    } else {
      GoBalance(s, c);
      FoundKept(s.calls, c, Continue(s, c).calls[c]);
      KeyKeepsInv(s, Continue(s, c));
    }
  }

  lemma StepInsert(s: State, c: nat, i: nat, j: nat)
    requires Inv(s) && Possible(s, Insert(c, i, j)) && NoneAllowed(s, Insert(c, i, j))
    ensures Inv(Apply(s, Insert(c, i, j)))
  {
    assert !Makes(s, Insert(c, i, j), OperationInFlush);
    var s1 := Put(s, i, j, Some(s.calls[c].expires));
    PutCounts(s, i, j, Some(s.calls[c].expires));
    Moves(s1, c, Idle);
    FoundKept(s.calls, c, Idle);
    KeyKeepsInv(s, At(s1, c, Idle));
  }

  lemma StepRefuse(s: State, c: nat)
    requires Inv(s) && Possible(s, Refuse(c)) && NoneAllowed(s, Refuse(c))
    ensures Inv(Apply(s, Refuse(c)))
  {
    assert !Makes(s, Refuse(c), OperationInFlush);
    Moves(s, c, Idle);
    FoundKept(s.calls, c, Idle);
    KeyKeepsInv(s, At(s, c, Idle));
  }

  lemma {:induction false} SumSame(calls: seq<Pc>, calls': seq<Pc>, w: Pc -> nat)
    requires |calls| == |calls'| && forall c :: 0 <= c < |calls| ==> w(calls[c]) == w(calls'[c])
    ensures Sum(calls, w) == Sum(calls', w)
  {
    if calls != [] {
      SumSame(calls[..|calls| - 1], calls'[..|calls| - 1], w);
    }
  }

  /** Callers that have only found their entries change places, and nothing is counted differently. */
  lemma SameSums(calls: seq<Pc>, calls': seq<Pc>)
    requires |calls| == |calls'|
    requires forall c :: 0 <= c < |calls| ==> calls'[c] == calls[c] || (calls[c].Found? && Weightless(calls'[c]))
    ensures Sum(calls', Due) == Sum(calls, Due) && Sum(calls', Held) == Sum(calls, Held)
    ensures Sum(calls', Adding) == Sum(calls, Adding) && Sum(calls', Clearing) == Sum(calls, Clearing)
  {
    SumSame(calls, calls', Due);
    SumSame(calls, calls', Held);
    SumSame(calls, calls', Adding);
    SumSame(calls, calls', Clearing);
  }

  lemma StepFlush(s: State, c: nat)
    requires Inv(s) && Possible(s, Call(c, Flush)) && NoneAllowed(s, Call(c, Flush))
    ensures Inv(Begin(s, c, Flush))
  {
    assert !Makes(s, Call(c, Flush), FlushInOperation);
    var s' := At(s, c, Flushing(0));
    Moves(s, c, Flushing(0));
    SumUpdate(s.calls, c, Flushing(0), Taking);
    TablesStay(s, s');
    FoundKept(s.calls, c, Flushing(0));
    forall d | 0 <= d < |s'.calls| && s'.calls[d].Flushing? ensures ClearedBelow(s'.shards, s'.calls[d].k) {
      if d != c { SumBounds(s.calls, d, Clearing); }
    }
  }

  /** Clearing a shard that no chunk is in lowers the counts. */
  lemma ClearedCounts(s: State, k: nat)
    requires Shape(s) && k < |s.shards| && !(InChunk(s) && s.scan.shard == k)
    ensures var s' := ClearShard(s, k);
            && Shape(s') && s'.scan == s.scan && Total(s'.shards) <= Total(s.shards)
            && Covered(s') <= Covered(s) && Lost(s') == Lost(s) && Ttls(s'.shards[k]) == 0
  {
    var b := Blank(INITIAL_SHARD_CAPACITY);
    NoneCounted(INITIAL_SHARD_CAPACITY);
    TotalUpdate(s.shards, k, b);
    TotalPrefixUpdate(s.shards, k, b, s.scan.shard);
    if s.scan.shard == k && s.scan.slot <= INITIAL_SHARD_CAPACITY {
      assert b[..s.scan.slot] == Blank(s.scan.slot);
      NoneCounted(s.scan.slot);
    }
  }

  /** No caller that may take an expiry off is stranded, since there is none. */
  lemma StrandedFound(calls: seq<Pc>, i: nat, k: nat)
    requires Sum(calls, Taking) == 0
    ensures FoundInv(AllStranded(calls, i, k)) && Sum(AllStranded(calls, i, k), Taking) == 0
  {
    forall c | 0 <= c < |calls| ensures Taking(calls[c]) == 0 {
      SumBounds(calls, c, Taking);
    }
    SumSame(calls, AllStranded(calls, i, k), Taking);
  }

  /** What the invariant needs of a step that only takes entries away while a flush clears. */
  lemma ClearKeepsInv(s: State, s': State)
    requires Inv(s) && Shape(s') && s'.scan == s.scan && s'.gen == s.gen && s'.count == s.count
    requires Total(s'.shards) <= Total(s.shards) && Covered(s') <= Covered(s) && Lost(s') == Lost(s)
    requires Sum(s'.calls, Due) == Sum(s.calls, Due) && Sum(s'.calls, Held) == Sum(s.calls, Held)
    requires Sum(s'.calls, Adding) == Sum(s.calls, Adding)
    requires FlushInv(s') && FoundInv(s'.calls)
    ensures Inv(s')
  {
  }

  lemma StepClear(s: State, c: nat)
    requires Inv(s) && Possible(s, Go(c)) && NoneAllowed(s, Go(c))
    requires s.calls[c].Flushing? && s.calls[c].k < |s.shards|
    ensures Inv(Continue(s, c))
  {
    assert !Makes(s, Go(c), FlushInChunk);
    ClearInv(s, c, s.calls[c].k);
  }

  lemma ClearInv(s: State, c: nat, k: nat)
    requires Inv(s) && c < |s.calls| && s.calls[c] == Flushing(k) && k < |s.shards|
    requires !(InChunk(s) && s.scan.shard == k)
    ensures Inv(At(ClearShard(s, k), c, Flushing(k + 1)))
  {
    var s' := At(ClearShard(s, k), c, Flushing(k + 1));
    ClearBalance(s, c, k);
    ClearFlush(s, c, k);
    ClearKeepsInv(s, s');
  }

  lemma ClearFlush(s: State, c: nat, k: nat)
    requires FlushInv(s) && c < |s.calls| && s.calls[c] == Flushing(k) && k < |s.shards|
    ensures var s' := At(ClearShard(s, k), c, Flushing(k + 1));
            && FlushInv(s') && FoundInv(s'.calls)
            && Sum(s'.calls, Due) == Sum(s.calls, Due) && Sum(s'.calls, Held) == Sum(s.calls, Held)
            && Sum(s'.calls, Adding) == Sum(s.calls, Adding)
  {
    SumBounds(s.calls, c, Clearing);
    CallsAfterClear(s.calls, c, k, |s.gone|);
    ClearedOn(s, c, k, At(ClearShard(s, k), c, Flushing(k + 1)));
  }

  lemma ClearBalance(s: State, c: nat, k: nat)
    requires Shape(s) && c < |s.calls| && k < |s.shards| && !(InChunk(s) && s.scan.shard == k)
    ensures var s' := At(ClearShard(s, k), c, Flushing(k + 1));
            && Shape(s') && s'.scan == s.scan && Total(s'.shards) <= Total(s.shards)
            && Covered(s') <= Covered(s) && Lost(s') == Lost(s)
  {
    ClearedCounts(s, k);
    TablesStay(ClearShard(s, k), At(ClearShard(s, k), c, Flushing(k + 1)));
  }

  lemma CallsAfterClear(calls: seq<Pc>, c: nat, k: nat, n: nat)
    requires c < |calls| && calls[c] == Flushing(k) && Sum(calls, Taking) == 0
    ensures var calls' := AllStranded(calls, k, n)[c := Flushing(k + 1)];
            && FoundInv(calls') && Sum(calls', Taking) == 0
            && Sum(calls', Due) == Sum(calls, Due) && Sum(calls', Held) == Sum(calls, Held)
            && Sum(calls', Adding) == Sum(calls, Adding) && Sum(calls', Clearing) == Sum(calls, Clearing)
  {
    var mid := AllStranded(calls, k, n);
    var pc := Flushing(k + 1);
    SameSums(calls, mid);
    StrandedFound(calls, k, n);
    SumUpdate(mid, c, pc, Due);
    SumUpdate(mid, c, pc, Held);
    SumUpdate(mid, c, pc, Adding);
    SumUpdate(mid, c, pc, Clearing);
    SumUpdate(mid, c, pc, Taking);
    FoundKept(mid, c, pc);
  }

  lemma ClearedOn(s: State, c: nat, k: nat, s': State)
    requires c < |s.calls| && s.calls[c] == Flushing(k) && k < |s.shards|
    requires forall d :: 0 <= d < |s.calls| && s.calls[d].Flushing? ==> ClearedBelow(s.shards, s.calls[d].k)
    requires s' == At(ClearShard(s, k), c, Flushing(k + 1))
    ensures forall d :: 0 <= d < |s'.calls| && s'.calls[d].Flushing? ==> ClearedBelow(s'.shards, s'.calls[d].k)
  {
    NoneCounted(INITIAL_SHARD_CAPACITY);
    forall d | 0 <= d < |s'.calls| && s'.calls[d].Flushing? ensures ClearedBelow(s'.shards, s'.calls[d].k) {
      assert ClearedBelow(s.shards, s.calls[d].k);
    }
  }

  lemma StepZero(s: State, c: nat)
    requires Inv(s) && Possible(s, Go(c)) && NoneAllowed(s, Go(c))
    requires s.calls[c].Zeroed? || (s.calls[c].Flushing? && s.calls[c].k >= |s.shards|)
    ensures Inv(Continue(s, c))
  {
    assert !Makes(s, Go(c), FlushInEnd);
    var s' := Continue(s, c);
    TablesStay(s, s');
    Moves(s, c, s'.calls[c]);
    SumUpdate(s.calls, c, s'.calls[c], Taking);
    FoundKept(s.calls, c, s'.calls[c]);
    if s.calls[c].Flushing? {
      SumBounds(s.calls, c, Clearing);
      assert ClearedBelow(s.shards, s.calls[c].k);
      EmptyShards(s.shards);
    }
  }

  lemma FollowingFound(calls: seq<Pc>, i: nat, t: Slots, place: seq<nat>)
    ensures FoundInv(calls) ==> FoundInv(AllFollowing(calls, i, t, place))
    ensures Sum(calls, Taking) == 0 ==> Sum(AllFollowing(calls, i, t, place), Taking) == 0
  {
    if Sum(calls, Taking) == 0 {
      var calls' := AllFollowing(calls, i, t, place);
      forall c | 0 <= c < |calls| ensures Taking(calls[c]) == Taking(calls'[c]) {
        SumBounds(calls, c, Taking);
      }
      SumSame(calls, calls', Taking);
    }
  }

  lemma RehashCounts(s: State, i: nat, slots: Slots, place: seq<nat>)
    requires Shape(s) && Possible(s, Rehash(i, slots, place))
    ensures var s' := Apply(s, Rehash(i, slots, place));
            && Shape(s') && Total(s'.shards) == Total(s.shards) && Covered(s') <= Covered(s) && Lost(s') == Lost(s)
            && forall k :: 0 <= k < |s.shards| ==> Ttls(s'.shards[k]) == Ttls(s.shards[k])
  {
    TotalUpdate(s.shards, i, slots);
    TotalPrefixUpdate(s.shards, i, slots, s.scan.shard);
    if s.scan.slot == 0 {
      assert slots[..0] == [];
    }
  }

  lemma StepRehash(s: State, i: nat, slots: Slots, place: seq<nat>)
    requires Inv(s) && Possible(s, Rehash(i, slots, place))
    ensures Inv(Apply(s, Rehash(i, slots, place)))
  {
    var s' := Apply(s, Rehash(i, slots, place));
    RehashCounts(s, i, slots, place);
    SameSums(s.calls, s'.calls);
    FollowingFound(s.calls, i, s.shards[i], place);
    forall c | 0 <= c < |s'.calls| && s'.calls[c].Flushing? && Sum(s.calls, Clearing) > 0
      ensures ClearedBelow(s'.shards, s'.calls[c].k)
    {
      assert ClearedBelow(s.shards, s.calls[c].k);
    }
    ClearKeepsInv(s, s');
  }

  // ------------------------------------------------- every step of the thread

  /** What holds of the counter wherever nothing is under removal. */
  ghost predicate Settled(s: State) {
    |s.shards| == |s.scan.caps| > 0 && Lacking(s) <= 0 && FlushInv(s) && FoundInv(s.calls)
  }

  lemma RestInv(s: State)
    requires Settled(s)
    ensures Inv(Rest(s))
  {
  }

  lemma BeginPassInv(s: State)
    requires Settled(s) && Sum(s.calls, Adding) == 0
    ensures Inv(s.(scan := Rest(s).scan.(phase := Between, gen := s.gen)))
  {
    assert s.shards[..0] == [] && s.shards[0][..0] == [];
  }

  lemma NextShardInv(s: State)
    requires Settled(s) && s.scan.shard < |s.shards| && s.scan.gen <= s.gen
    requires s.scan.gen == s.gen ==>
               Sum(s.calls, Adding) == 0 && Total(s.shards[..s.scan.shard + 1]) <= s.scan.live + Sum(s.calls, Due)
    ensures Inv(NextShard(s))
  {
    if s.scan.shard + 1 < |s.shards| {
      assert s.shards[s.scan.shard + 1][..0] == [];
    }
  }

  /** The entries with an expiry up to the scan's slot, in the table as it is. */
  function Passed(s: State): nat
    requires s.scan.shard < |s.shards| && s.scan.slot <= |s.shards[s.scan.shard]|
  {
    Total(s.shards[..s.scan.shard]) + Ttls(s.shards[s.scan.shard][..s.scan.slot])
  }

  lemma AfterChunkInv(s: State, first: nat)
    requires Settled(s) && s.scan.shard < |s.shards| && s.scan.gen <= s.gen
    requires s.scan.gen == s.gen ==> Sum(s.calls, Adding) == 0
    requires var cap := |s.shards[s.scan.shard]|;
             first == 0 || s.scan.caps[s.scan.shard] == cap ==>
               s.scan.slot <= cap && (s.scan.gen == s.gen ==> Passed(s) <= s.scan.live + Sum(s.calls, Due))
    ensures Inv(AfterChunk(s, first, |s.shards[s.scan.shard]|))
  {
    var t := s.shards[s.scan.shard];
    var cap := |t|;
    if first != 0 && s.scan.caps[s.scan.shard] != cap {
      RestInv(s);
    } else {
      var s1 := if first == 0 then s.(scan := s.scan.(caps := s.scan.caps[s.scan.shard := cap])) else s;
      if s.scan.slot == cap {
        assert t[..cap] == t;
        TotalAtLeast(s.shards, s.scan.shard);
        NextShardInv(s1);
      }
    }
  }

  /** A chunk that sees a counter of zero skips the shard: nothing in the store is counted. */
  lemma SkipInv(s: State)
    requires Inv(s) && s.scan.phase.Entered? && s.count == 0
    ensures Inv(AfterChunk(s, s.scan.slot, 0))
  {
    TotalAtLeast(s.shards, s.scan.shard);
    var s1 := if s.scan.slot == 0 then s.(scan := s.scan.(caps := s.scan.caps[s.scan.shard := 0])) else s;
    RestInv(s);
    NextShardInv(s1);
  }

  lemma EnterInv(s: State, now: nat, max: nat)
    requires Inv(s) && s.scan.phase.Entered?
    ensures Inv(s.(scan := s.scan.(phase := Visiting(s.scan.slot, max, now, None))))
  {
  }

  lemma VisitInv(s: State)
    requires Inv(s) && s.scan.phase.Visiting?
    ensures Inv(Visit(s))
  {
    var p, t := s.scan.phase, s.shards[s.scan.shard];
    if p.left == 0 || s.scan.slot >= |t| {
      AfterChunkInv(s, p.first);
    } else {
      var x := t[s.scan.slot];
      if !(x.Some? && Expired(x.value, p.now)) {
        assert t[..s.scan.slot + 1] == t[..s.scan.slot] + [x];
      }
    }
  }

  lemma RemoveInv(s: State)
    requires Inv(s) && s.scan.phase.Removing?
    ensures Inv(Remove(s))
  {
    var i, j := s.scan.shard, s.scan.slot;
    PutCounts(s, i, j, None);
    var t' := Put(s, i, j, None).shards[i];
    assert t'[..j + 1] == s.shards[i][..j] + [None];
    TotalPrefixUpdate(s.shards, i, t', i);
    RemoveKeepsFlush(s);
  }

  lemma RemoveKeepsFlush(s: State)
    requires FlushInv(s) && s.scan.phase.Removing? && InRange(s, s.scan.shard, s.scan.slot)
    requires s.scan.phase.stale.None?
    ensures FlushInv(Remove(s))
  {
    var s' := Remove(s);
    TtlsUpdate(s.shards[s.scan.shard], s.scan.slot, None);
    forall c | 0 <= c < |s'.calls| && s'.calls[c].Flushing? && Sum(s.calls, Clearing) > 0
      ensures ClearedBelow(s'.shards, s'.calls[c].k)
    {
      assert ClearedBelow(s.shards, s.calls[c].k);
    }
  }

  lemma EndInvKept(s: State)
    requires Inv(s) && (s.scan.phase.Ended? || s.scan.phase.Observed? || s.scan.phase.Armed?)
    ensures Inv(Advance(s, 0, 1))
  {
    RestInv(s);
    if s.scan.phase.Armed? && s.count == s.scan.phase.n {
      RestInv(s.(count := s.scan.live));
    }
  }

  lemma ObserveInv(s: State)
    requires Inv(s) && s.scan.phase.Checked? && Sum(s.calls, Lowering) == 0
    ensures Inv(s.(scan := s.scan.(phase := Observed(s.count))))
  {
    HeldSplits(s.calls);
    assert s.shards[..|s.shards|] == s.shards;
  }

  /** A held count is that of an add or of an operation that has yet to lower the counter. */
  lemma {:induction false} HeldSplits(calls: seq<Pc>)
    ensures Sum(calls, Held) <= Sum(calls, Adding) + Sum(calls, Lowering)
  {
    if calls != [] {
      HeldSplits(calls[..|calls| - 1]);
    }
  }

  lemma StepThread(s: State, now: nat, max: nat)
    requires Inv(s) && Possible(s, Thread(now, max)) && NoneAllowed(s, Thread(now, max))
    ensures Inv(Advance(s, now, max))
  {
    assert !Makes(s, Thread(now, max), PassBeginsInAdd) && !Makes(s, Thread(now, max), PassEndsInUncount);
    match s.scan.phase {
      case Resting => BeginPassInv(s);
      case Between => RestInv(s);
      case Entered(m) =>
        if s.count == 0 { SkipInv(s); } else { EnterInv(s, now, m); }
      case Visiting(_, _, _, _) => VisitInv(s);
      case Removing(_, _, _, _) => RemoveInv(s);
      case Checked => ObserveInv(s);
      case _ => EndInvKept(s);
    }
  }

  /** Every step that makes no overlap keeps the invariant. */
  lemma StepKeepsInv(s: State, step: Step)
    requires Inv(s) && Possible(s, step) && NoneAllowed(s, step)
    ensures Inv(Apply(s, step))
  {
    match step {
      case Call(c, op) =>
        if op.Flush? { StepFlush(s, c); } else { StepBegin(s, c, op); }
      case Go(c) =>
        if KeyStep(s, step) { StepGo(s, c); }
        else if s.calls[c].Flushing? && s.calls[c].k < |s.shards| { StepClear(s, c); }
        else { StepZero(s, c); }
      case Insert(c, i, j) => StepInsert(s, c, i, j);
      case Refuse(c) => StepRefuse(s, c);
      case Rehash(i, slots, place) => StepRehash(s, i, slots, place);
      case Thread(now, max) => StepThread(s, now, max);
    }
  }

  lemma InitInv(s: State)
    requires Init(s)
    ensures Inv(s)
  {
    SumIdle(s.calls, Due);
    SumIdle(s.calls, Held);
    SumIdle(s.calls, Clearing);
  }

  // ------------------------------------------------------------ every run

  /** In every run without an overlap, the invariant holds at every point. */
  lemma RunKeepsInv(s: State, t: State)
    requires Inv(s) && Leads(Next({}), s, t)
    ensures Inv(t)
  {
    forall x, step | Inv(x) && Next({})(x, step).Some? ensures Inv(Next({})(x, step).value) {
      StepKeepsInv(x, step);
    }
    LeadsKeeps(Next({}), Inv, s, t);
  }

  /** No operation, flush or removal is under way. */
  ghost predicate Quiet(s: State) {
    !s.scan.phase.Removing? && forall c :: 0 <= c < |s.calls| ==> s.calls[c].Idle?
  }

  /** A key that will expire, and a counter that does not count it. */
  ghost predicate Hides(s: State) { Quiet(s) && s.count < Total(s.shards) }

  lemma QuietCounts(s: State)
    requires Inv(s) && Quiet(s)
    ensures Total(s.shards) <= s.count
  {
    SumIdle(s.calls, Due);
    SumIdle(s.calls, Held);
  }

  /**
   * At every quiet point of every run without an overlap, the counter is at
   * least the number of entries with an expiry, so zero means there are none.
   */
  lemma NothingHidden(s: State, t: State)
    requires Init(s) && Leads(Next({}), s, t)
    ensures !Hides(t) && (Quiet(t) && t.count == 0 ==> Total(t.shards) == 0)
  {
    InitInv(s);
    RunKeepsInv(s, t);
    if Quiet(t) {
      QuietCounts(t);
    }
  }

  // --------------------------------------- each overlap alone hides a key

  /** Two callers, one shard of two slots, nothing stored. */
  function Start(): State { State([[None, None]], 0, 0, [Idle, Idle], Scan(Resting, 0, 0, 0, 0, [0]), []) }

  /** Reached from the start with no overlaps but the given ones. */
  ghost predicate Reached(allowed: set<Overlap>, s: State) { Leads(Next(allowed), Start(), s) }

  lemma Started(allowed: set<Overlap>)
    ensures Init(Start()) && Reached(allowed, Start())
  {
    TotalOfTwo(None, None);
    LeadsNowhere(Next(allowed), Start());
  }

  lemma Move(allowed: set<Overlap>, s: State, step: Step)
    requires Reached(allowed, s) && Possible(s, step) && forall o :: Makes(s, step, o) ==> o in allowed
    ensures Reached(allowed, Apply(s, step))
  {
    LeadsOn(Next(allowed), Start(), s, step);
  }

  lemma SumOfTwo(a: Pc, b: Pc, w: Pc -> nat)
    ensures Sum([a, b], w) == w(a) + w(b)
  {
    var cs := [a, b];
    assert cs[..1] == [a] && cs[..1][..0] == [];
    assert Sum(cs[..1], w) == Sum([], w) + w(a);
  }

  lemma TotalOfTwo(x: Option<nat>, y: Option<nat>)
    ensures Total([[x, y]]) == One(x) + One(y) && Ttls([x, y]) == One(x) + One(y)
  {
    var t: Slots := [x, y];
    assert t[..1] == [x];
    TtlsOne(x);
    var shards: seq<Slots> := [t];
    assert shards[..0] == [];
  }

  /** The state after an entry with an expiry has been written and counted. */
  function Stored(s: State, j: nat, e: nat): State
    requires InRange(s, 0, j)
  {
    Put(s, 0, j, Some(e)).(count := s.count + 1, gen := s.gen + 1)
  }

  /** A whole `set_string` by caller c. */
  lemma WholeSetString(allowed: set<Overlap>, s: State, c: nat, j: nat, e: nat)
    requires Reached(allowed, s) && c < |s.calls| && s.calls[c].Idle? && InRange(s, 0, j) && e != 0
    requires Sum(s.calls, Clearing) > 0 ==> OperationInFlush in allowed
    ensures Reached(allowed, Stored(s, j, e))
  {
    var put := Put(s, 0, j, Some(e));
    Move(allowed, s, Call(c, SetString(0, j, e)));
    SumUpdate(s.calls, c, Written, Clearing);
    WholeAdd(allowed, At(put, c, Written), c);
    assert s.calls[c := Written][c := Idle] == s.calls;
  }

  /** `add_ttl` after the entry was written. */
  lemma WholeAdd(allowed: set<Overlap>, s: State, c: nat)
    requires Reached(allowed, s) && c < |s.calls| && s.calls[c].Written?
    requires Sum(s.calls, Clearing) > 0 ==> OperationInFlush in allowed
    ensures Reached(allowed, At(s.(count := s.count + 1, gen := s.gen + 1), c, Idle))
  {
    Move(allowed, s, Go(c));
    var s1 := At(s.(gen := s.gen + 1), c, Raising);
    SumUpdate(s.calls, c, Raising, Clearing);
    Move(allowed, s1, Go(c));
    assert s.calls[c := Raising][c := Idle] == s.calls[c := Idle];
  }

  /** The state after a flush of one shard. */
  function Flushed(s: State): State
    requires |s.shards| > 0
  {
    ClearShard(s, 0).(count := 0, gen := s.gen + 1)
  }

  lemma WholeFlush(allowed: set<Overlap>, s: State, c: nat)
    requires Reached(allowed, s) && c < |s.calls| && s.calls[c].Idle? && |s.shards| == 1
    requires InChunk(s) ==> FlushInChunk in allowed
    requires Sum(s.calls, Held) > 0 || Sum(s.calls, Taking) > 0 ==> FlushInOperation in allowed
    requires s.scan.phase.Observed? || s.scan.phase.Armed? ==> FlushInEnd in allowed
    ensures Reached(allowed, Flushed(s))
  {
    var s1 := At(s, c, Flushing(0));
    var s2 := At(ClearShard(s, 0), c, Flushing(1));
    var s3 := At(s2.(count := 0), c, Zeroed);
    FlushStates(s, c);
    Move(allowed, s, Call(c, Flush));
    assert s2 == Apply(s1, Go(c));
    FlushMoves(allowed, s1, c);
    FlushMoves(allowed, s2, c);
    FlushMoves(allowed, s3, c);
  }

  lemma FlushMoves(allowed: set<Overlap>, s: State, c: nat)
    requires Reached(allowed, s) && c < |s.calls| && (s.calls[c].Flushing? || s.calls[c].Zeroed?) && |s.shards| == 1
    requires s.calls[c] == Flushing(0) && InChunk(s) ==> FlushInChunk in allowed
    requires s.scan.phase.Observed? || s.scan.phase.Armed? ==> FlushInEnd in allowed
    ensures Reached(allowed, Apply(s, Go(c)))
  {
    Move(allowed, s, Go(c));
  }

  /** The states that a flush of one shard goes through. */
  lemma FlushStates(s: State, c: nat)
    requires c < |s.calls| && s.calls[c].Idle? && |s.shards| == 1
    ensures var s2 := At(ClearShard(s, 0), c, Flushing(1));
            && Apply(At(s, c, Flushing(0)), Go(c)) == s2
            && Apply(s2, Go(c)) == At(s2.(count := 0), c, Zeroed)
            && Apply(At(s2.(count := 0), c, Zeroed), Go(c)) == Flushed(s)
  {
    var s1 := At(s, c, Flushing(0));
    var s2 := At(ClearShard(s, 0), c, Flushing(1));
    var s3 := At(s2.(count := 0), c, Zeroed);
    assert Apply(s1, Go(c)).calls == s2.calls;
    assert Apply(s2, Go(c)).calls == s3.calls;
    assert Apply(s3, Go(c)).calls == Flushed(s).calls;
  }

  function Scanning(s: State, phase: Phase, shard: nat, slot: nat, live: nat, caps: seq<nat>): State {
    s.(scan := Scan(phase, shard, slot, live, s.gen, caps))
  }

  /** From rest into a chunk of the first shard. */
  lemma IntoChunk(allowed: set<Overlap>, s: State, now: nat, max: nat)
    requires Reached(allowed, s) && s.scan.phase.Resting? && s.count > 0 && max > 0
    requires |s.shards| == 1 && |s.scan.caps| == 1
    requires Sum(s.calls, Adding) > 0 ==> PassBeginsInAdd in allowed
    ensures Reached(allowed, Scanning(s, Visiting(0, max, now, None), 0, 0, 0, s.scan.caps))
  {
    Move(allowed, s, Thread(now, max));
    var s1 := Scanning(s, Between, 0, 0, 0, s.scan.caps);
    assert Apply(s, Thread(now, max)) == s1;
    Move(allowed, s1, Thread(now, max));
    var s2 := Scanning(s, Entered(max), 0, 0, 0, s.scan.caps);
    assert Apply(s1, Thread(now, max)) == s2;
    Move(allowed, s2, Thread(now, max));
  }

  /** A pass over one shard of two slots at time zero, when nothing has expired. */
  lemma WholePass(allowed: set<Overlap>, s: State, x: Option<nat>, y: Option<nat>)
    requires Reached(allowed, s) && s.scan.phase.Resting? && s.count > 0
    requires s.shards == [[x, y]] && |s.scan.caps| == 1
    requires Sum(s.calls, Adding) > 0 ==> PassBeginsInAdd in allowed
    ensures Reached(allowed, Scanning(s, Ended, 1, 0, One(x) + One(y), [2]))
  {
    IntoChunk(allowed, s, 0, 2);
    var s1 := Scanning(s, Visiting(0, 2, 0, None), 0, 0, 0, s.scan.caps);
    Move(allowed, s1, Thread(0, 1));
    var s2 := Scanning(s, Visiting(0, 1, 0, None), 0, 1, One(x), s.scan.caps);
    assert Apply(s1, Thread(0, 1)) == s2;
    Move(allowed, s2, Thread(0, 1));
    var s3 := Scanning(s, Visiting(0, 0, 0, None), 0, 2, One(x) + One(y), s.scan.caps);
    assert Apply(s2, Thread(0, 1)) == s3;
    Move(allowed, s3, Thread(0, 1));
    assert s.scan.caps[0 := 2] == [2];
  }

  /** The end of a pass up to the exchange. */
  lemma UpToExchange(allowed: set<Overlap>, s: State)
    requires Reached(allowed, s) && s.scan.phase.Ended? && s.gen == s.scan.gen && |s.scan.caps| == |s.shards|
    requires Sum(s.calls, Lowering) > 0 ==> PassEndsInUncount in allowed
    ensures Reached(allowed, s.(scan := s.scan.(phase := Armed(s.count))))
  {
    Move(allowed, s, Thread(0, 1));
    var s1 := s.(scan := s.scan.(phase := Checked));
    Move(allowed, s1, Thread(0, 1));
    var s2 := s.(scan := s.scan.(phase := Observed(s.count)));
    Move(allowed, s2, Thread(0, 1));
  }

  lemma Exchange(allowed: set<Overlap>, s: State)
    requires Reached(allowed, s) && s.scan.phase == Armed(s.count) && |s.scan.caps| == |s.shards|
    ensures Reached(allowed, Rest(s.(count := s.scan.live)))
  {
    Move(allowed, s, Thread(0, 1));
  }

  lemma IdleSums()
    ensures Sum([Idle, Idle], Held) == Sum([Idle, Idle], Adding) == Sum([Idle, Idle], Clearing) ==
            Sum([Idle, Idle], Lowering) == Sum([Idle, Idle], Taking) == 0
  {
    SumOfTwo(Idle, Idle, Taking);
    SumOfTwo(Idle, Idle, Held);
    SumOfTwo(Idle, Idle, Adding);
    SumOfTwo(Idle, Idle, Clearing);
    SumOfTwo(Idle, Idle, Lowering);
  }

  /** A fresh table with one entry that has an expiry. */
  lemma OneInFresh(e: nat)
    requires e != 0
    ensures Total([Blank(INITIAL_SHARD_CAPACITY)[0 := Some(e)]]) == 1
  {
    var b := Blank(INITIAL_SHARD_CAPACITY);
    NoneCounted(INITIAL_SHARD_CAPACITY);
    TtlsUpdate(b, 0, Some(e));
    var shards: seq<Slots> := [b[0 := Some(e)]];
    assert shards[..0] == [];
  }

  function Rested(slots: Slots, count: nat, gen: nat): State {
    State([slots], count, gen, [Idle, Idle], Scan(Resting, 0, 0, 0, 0, [0]), [])
  }

  /** One key with an expiry, written and counted. */
  lemma OneStored(allowed: set<Overlap>, e: nat)
    requires e != 0
    ensures Reached(allowed, Rested([Some(e), None], 1, 1))
  {
    Started(allowed);
    IdleSums();
    WholeSetString(allowed, Start(), 0, 0, e);
    var t: Slots := [None, None];
    assert t[0 := Some(e)] == [Some(e), None];
    assert Stored(Start(), 0, e).shards == [t[0 := Some(e)]];
  }

  lemma TwoStored(allowed: set<Overlap>, d: nat, e: nat)
    requires d != 0 && e != 0
    ensures Reached(allowed, Rested([Some(d), Some(e)], 2, 2))
  {
    OneStored(allowed, d);
    IdleSums();
    WholeSetString(allowed, Rested([Some(d), None], 1, 1), 0, 1, e);
    var t: Slots := [Some(d), None];
    assert t[1 := Some(e)] == [Some(d), Some(e)];
    assert Stored(Rested(t, 1, 1), 1, e).shards == [t[1 := Some(e)]];
  }

  /**
   * A deleted key leaves the counter at one; a pass finds none and reads one;
   * a flush and a new key bring the counter back to one; the exchange puts zero.
   */
  lemma FlushInEndHides() returns (t: State)
    ensures Reached({FlushInEnd}, t) && Hides(t)
  {
    var p := {FlushInEnd};
    var u := Rested([None, None], 1, 1);
    OneDeleted(p);
    IdleSums();
    WholePass(p, u, None, None);
    var s := Scanning(u, Ended, 1, 0, 0, [2]);
    UpToExchange(p, s);
    var a := s.(scan := s.scan.(phase := Armed(1)));
    WholeFlush(p, a, 0);
    var f := Flushed(a);
    assert f.shards == [Blank(INITIAL_SHARD_CAPACITY)] && f.calls == [Idle, Idle];
    WholeSetString(p, f, 0, 0, 9);
    var g := Stored(f, 0, 9);
    Exchange(p, g);
    t := Rest(g.(count := 0));
    OneInFresh(9);
    assert t.shards == [Blank(INITIAL_SHARD_CAPACITY)[0 := Some(9)]];
  }

  /** A key with an expiry, stored and deleted: the counter still counts it. */
  lemma OneDeleted(allowed: set<Overlap>)
    ensures Reached(allowed, Rested([None, None], 1, 1))
  {
    var s := Rested([Some(9), None], 1, 1);
    OneStored(allowed, 9);
    IdleSums();
    Move(allowed, s, Call(0, Del(0, 0)));
    var slots: Slots := [Some(9), None];
    assert slots[0 := None] == [None, None];
    assert Apply(s, Call(0, Del(0, 0))).shards == [slots[0 := None]];
  }

  /** A flush has replaced the table and not yet zeroed the counter. */
  lemma AllCleared(allowed: set<Overlap>) returns (s: State)
    ensures s == Rested(Blank(INITIAL_SHARD_CAPACITY), 0, 0).(calls := [Flushing(1), Idle], gone := [[None, None]])
    ensures Reached(allowed, s)
  {
    Started(allowed);
    IdleSums();
    Move(allowed, Start(), Call(0, Flush));
    var s0 := Start().(calls := [Flushing(0), Idle]);
    assert Start().calls[0 := Flushing(0)] == s0.calls;
    FlushMoves(allowed, s0, 0);
    s := Apply(s0, Go(0));
    assert s.calls == [Flushing(1), Idle] && s.shards == [Blank(INITIAL_SHARD_CAPACITY)];
  }

  /** A key stored and counted after the tables were cleared and before the counter is zeroed. */
  lemma OperationInFlushHides() returns (t: State)
    ensures Reached({OperationInFlush}, t) && Hides(t)
  {
    var p := {OperationInFlush};
    Started(p);
    IdleSums();
    var s1 := AllCleared(p);
    WholeSetString(p, s1, 1, 0, 9);
    var s2 := Stored(s1, 0, 9);
    Move(p, s2, Go(0));
    var s3 := Apply(s2, Go(0));
    assert s3.calls == [Zeroed, Idle];
    Move(p, s3, Go(0));
    t := Apply(s3, Go(0));
    assert t.calls == [Idle, Idle];
    OneInFresh(9);
    assert t.shards == [Blank(INITIAL_SHARD_CAPACITY)[0 := Some(9)]];
  }

  /** A counter-first set that has raised the counter and not yet written its entry. */
  lemma SetCounted(allowed: set<Overlap>)
    ensures Reached(allowed, Rested([None, None], 1, 1).(calls := [Counted(9), Idle]))
  {
    Started(allowed);
    IdleSums();
    Move(allowed, Start(), Call(0, Set(0, 0, 9)));
    var s1 := Start().(gen := 1, calls := [Bumped(9), Idle]);
    assert Apply(Start(), Call(0, Set(0, 0, 9))) == s1;
    SumOfTwo(Bumped(9), Idle, Clearing);
    Move(allowed, s1, Go(0));
    assert s1.calls[0 := Counted(9)] == [Counted(9), Idle];
  }

  /** The counted set writes its entry at last. */
  lemma SetInserted(allowed: set<Overlap>, s: State) returns (t: State)
    requires Reached(allowed, s) && s.calls == [Counted(9), Idle] && InRange(s, 0, 0)
    ensures Reached(allowed, t) && t == Put(s, 0, 0, Some(9)).(calls := [Idle, Idle])
  {
    SumOfTwo(Counted(9), Idle, Clearing);
    Move(allowed, s, Insert(0, 0, 0));
    t := Apply(s, Insert(0, 0, 0));
    assert s.calls[0 := Idle] == [Idle, Idle];
  }

  /** A flush between the counter and the entry of a set. */
  lemma FlushInOperationHides() returns (t: State)
    ensures Reached({FlushInOperation}, t) && Hides(t)
  {
    var p := {FlushInOperation};
    SetCounted(p);
    var s := Rested([None, None], 1, 1).(calls := [Counted(9), Idle]);
    WholeFlush(p, s, 1);
    var f := Flushed(s);
    assert f.shards == [Blank(INITIAL_SHARD_CAPACITY)] && f.calls == [Counted(9), Idle];
    t := SetInserted(p, f);
    OneInFresh(9);
    assert t.shards == [Blank(INITIAL_SHARD_CAPACITY)[0 := Some(9)]];
  }

  /**
   * A persist finds its entry; a whole flush replaces the table and zeroes the counter; another
   * key is stored and counted; the persist takes the expiry off the entry it found and lowers the counter.
   */
  lemma FlushAfterLookupHides() returns (t: State)
    ensures Reached({FlushInOperation}, t) && Hides(t)
  {
    var p, op := {FlushInOperation}, Persist(0, 0, 0);
    var b := Blank(INITIAL_SHARD_CAPACITY);
    var f := PersistOvertaken(p);
    SumOfTwo(Found(op, Replaced(0)), Idle, Clearing);
    WholeSetString(p, f, 1, 0, 9);
    var g := Stored(f, 0, 9);
    Move(p, g, Go(0));
    var u := g.(calls := [Uncounting, Idle], gone := [[Some(0), None]]);
    StaleUpdate(g);
    t := PersistDone(p, u);
    OneInFresh(9);
    assert t.shards == [b[0 := Some(9)]];
  }

  lemma StaleUpdate(g: State)
    requires g.calls == [Found(Persist(0, 0, 0), Replaced(0)), Idle] && g.gone == [[Some(9), None]]
    ensures Continue(g, 0) == g.(calls := [Uncounting, Idle], gone := [[Some(0), None]])
  {
    var t: Slots := [Some(9), None];
    assert t[0 := Some(0)] == [Some(0), None];
    assert g.gone[0 := t[0 := Some(0)]] == [[Some(0), None]];
    assert g.calls[0 := Uncounting] == [Uncounting, Idle];
  }

  /** A persist has found its entry when a flush replaces the table. */
  lemma PersistOvertaken(allowed: set<Overlap>) returns (f: State)
    requires FlushInOperation in allowed
    ensures f == Rested(Blank(INITIAL_SHARD_CAPACITY), 0, 2).(
                   calls := [Found(Persist(0, 0, 0), Replaced(0)), Idle], gone := [[Some(9), None]])
    ensures Reached(allowed, f)
  {
    var op := Persist(0, 0, 0);
    var r := Rested([Some(9), None], 1, 1);
    OneStored(allowed, 9);
    IdleSums();
    Move(allowed, r, Call(0, op));
    var s := r.(calls := [Found(op, Here), Idle]);
    assert r.calls[0 := Found(op, Here)] == s.calls;
    WholeFlush(allowed, s, 1);
    f := Flushed(s);
    assert f.shards == [Blank(INITIAL_SHARD_CAPACITY)];
    assert f.calls == [Found(op, Replaced(0)), Idle];
  }

  /** A whole pass between the counter and the entry of a set. */
  lemma PassBeginsInAddHides() returns (t: State)
    ensures Reached({PassBeginsInAdd}, t) && Hides(t)
  {
    var p := {PassBeginsInAdd};
    SetCounted(p);
    var s := Rested([None, None], 1, 1).(calls := [Counted(9), Idle]);
    WholePass(p, s, None, None);
    var e := Scanning(s, Ended, 1, 0, 0, [2]);
    SumOfTwo(Counted(9), Idle, Lowering);
    UpToExchange(p, e);
    var a := e.(scan := e.scan.(phase := Armed(1)));
    Exchange(p, a);
    t := SetInserted(p, Rest(a.(count := 0)));
    TotalOfTwo(Some(9), None);
    var slots: Slots := [None, None];
    assert slots[0 := Some(9)] == [Some(9), None];
    assert t.shards == [slots[0 := Some(9)]];
  }

  /** A pass ends between the entry and the counter of a persist, which then lowers the exact count. */
  lemma PassEndsInUncountHides() returns (t: State)
    ensures Reached({PassEndsInUncount}, t) && Hides(t)
  {
    var p := {PassEndsInUncount};
    var s := PersistBegun(p, 9, 9, 0);
    SumOfTwo(Uncounting, Idle, Adding);
    WholePass(p, s, Some(0), Some(9));
    var e := Scanning(s, Ended, 1, 0, 1, [2]);
    UpToExchange(p, e);
    var a := e.(scan := e.scan.(phase := Armed(2)));
    Exchange(p, a);
    t := PersistDone(p, Rest(a.(count := 1)));
    TotalOfTwo(Some(0), Some(9));
  }

  /** Two keys are stored; the first loses its expiry, and the counter has yet to be lowered. */
  lemma PersistBegun(allowed: set<Overlap>, d: nat, e: nat, now: nat) returns (s: State)
    requires d > now && e != 0
    ensures s == Rested([Some(0), Some(e)], 2, 2).(calls := [Uncounting, Idle]) && Reached(allowed, s)
  {
    TwoStored(allowed, d, e);
    IdleSums();
    var r := Rested([Some(d), Some(e)], 2, 2);
    var op := Persist(0, 0, now);
    Move(allowed, r, Call(0, op));
    var f := At(r, 0, Found(op, Here));
    assert f.calls == [Found(op, Here), Idle];
    SumOfTwo(Found(op, Here), Idle, Clearing);
    Move(allowed, f, Go(0));
    s := Apply(f, Go(0));
    var slots: Slots := [Some(d), Some(e)];
    assert slots[0 := Some(0)] == [Some(0), Some(e)];
    assert s.shards == [slots[0 := Some(0)]];
    assert f.calls[0 := Uncounting] == [Uncounting, Idle];
  }

  lemma PersistDone(allowed: set<Overlap>, s: State) returns (t: State)
    requires Reached(allowed, s) && s.calls == [Uncounting, Idle]
    ensures Reached(allowed, t) && t == s.(count := Less(s.count, 1), calls := [Idle, Idle])
  {
    SumOfTwo(Uncounting, Idle, Clearing);
    Move(allowed, s, Go(0));
    t := Apply(s, Go(0));
    assert s.calls[0 := Idle] == [Idle, Idle];
  }

  /** A chunk goes on in a table that a flush has replaced, and lowers the counter for an entry that is gone. */
  lemma FlushInChunkHides() returns (t: State)
    ensures Reached({FlushInChunk}, t) && Hides(t)
  {
    var p := {FlushInChunk};
    var f := ChunkOvertaken(p);
    var b := Blank(INITIAL_SHARD_CAPACITY);
    IdleSums();
    WholeSetString(p, f, 0, 0, 99);
    var g := Stored(f, 0, 99);
    assert g.shards == [b[0 := Some(99)]];
    t := StaleVisit(p, g);
    OneInFresh(99);
  }

  /** A chunk has begun when a flush replaces the table. */
  lemma ChunkOvertaken(allowed: set<Overlap>) returns (f: State)
    requires FlushInChunk in allowed
    ensures f == Rested(Blank(INITIAL_SHARD_CAPACITY), 0, 2).(
                   gone := [[Some(5), None]], scan := Scan(Visiting(0, 2, 10, Some(0)), 0, 0, 0, 1, [0]))
    ensures Reached(allowed, f)
  {
    OneStored(allowed, 5);
    IdleSums();
    var r := Rested([Some(5), None], 1, 1);
    IntoChunk(allowed, r, 10, 2);
    var s := Scanning(r, Visiting(0, 2, 10, None), 0, 0, 0, [0]);
    WholeFlush(allowed, s, 0);
    f := Flushed(s);
    assert f.shards == [Blank(INITIAL_SHARD_CAPACITY)] && f.calls == [Idle, Idle] && f.gone == [[Some(5), None]];
  }

  /** The thread lowers the counter for the expired entry of the old table. */
  lemma StaleVisit(allowed: set<Overlap>, g: State) returns (t: State)
    requires Reached(allowed, g) && |g.shards| == |g.scan.caps| == 1 && g.count == 1
    requires g.scan.phase == Visiting(0, 2, 10, Some(0)) && g.scan.shard == 0 && g.scan.slot == 0
    requires g.gone == [[Some(5), None]]
    ensures Reached(allowed, t) && t.shards == g.shards && t.count == 0 && t.calls == g.calls && t.scan.phase.Visiting?
  {
    Move(allowed, g, Thread(0, 1));
    var h := g.(count := 0, scan := g.scan.(phase := Removing(0, 2, 10, Some(0))));
    assert Apply(g, Thread(0, 1)) == h;
    Move(allowed, h, Thread(0, 1));
    t := Apply(h, Thread(0, 1));
  }

  /** A persist that still sees the entry alive lowers the counter a second time for it. */
  lemma UncountInRemovalHides() returns (t: State)
    ensures Reached({UncountInRemoval}, t) && Hides(t)
  {
    var p := {UncountInRemoval};
    var u := UncountedInRemoval(p);
    var v := PersistDone(p, u);
    Move(p, v, Thread(0, 1));
    t := Apply(v, Thread(0, 1));
    var slots: Slots := [Some(0), Some(99)];
    assert slots[0 := None] == [None, Some(99)];
    assert t.shards == [slots[0 := None]];
    TotalOfTwo(None, Some(99));
  }

  /** The persist takes the expiry off the entry that is being removed. */
  lemma UncountedInRemoval(allowed: set<Overlap>) returns (u: State)
    requires UncountInRemoval in allowed
    ensures u == Scanning(Rested([Some(0), Some(99)], 1, 2), Removing(0, 2, 5, None), 0, 0, 0, [0]).(
                   calls := [Uncounting, Idle])
    ensures Reached(allowed, u)
  {
    var s := RemovalBegun(allowed);
    var op := Persist(0, 0, 4);
    IdleSums();
    Move(allowed, s, Call(0, op));
    var f := s.(calls := [Found(op, Here), Idle]);
    assert s.calls[0 := Found(op, Here)] == f.calls;
    SumOfTwo(Found(op, Here), Idle, Clearing);
    Move(allowed, f, Go(0));
    u := Apply(f, Go(0));
    var slots: Slots := [Some(5), Some(99)];
    assert slots[0 := Some(0)] == [Some(0), Some(99)];
    assert u.shards == [slots[0 := Some(0)]];
    assert f.calls[0 := Uncounting] == [Uncounting, Idle];
  }

  /** Of two keys the first has expired by the thread's clock, and the counter is lowered for it. */
  lemma RemovalBegun(allowed: set<Overlap>) returns (s: State)
    ensures Reached(allowed, s)
    ensures s == Scanning(Rested([Some(5), Some(99)], 1, 2), Removing(0, 2, 5, None), 0, 0, 0, [0])
  {
    TwoStored(allowed, 5, 99);
    IdleSums();
    var r := Rested([Some(5), Some(99)], 2, 2);
    IntoChunk(allowed, r, 5, 2);
    var v := Scanning(r, Visiting(0, 2, 5, None), 0, 0, 0, [0]);
    Move(allowed, v, Thread(0, 1));
    s := Apply(v, Thread(0, 1));
  }

  /** Whatever the sizes and callers, no run hides a key. */
  ghost predicate Reliable(allowed: set<Overlap>) {
    forall s, t :: Init(s) && Leads(Next(allowed), s, t) ==> !Hides(t)
  }

  lemma OverlapHides(o: Overlap) returns (t: State)
    ensures Reached({o}, t) && Hides(t)
  {
    match o {
      case FlushInEnd => t := FlushInEndHides();
      case FlushInChunk => t := FlushInChunkHides();
      case FlushInOperation => t := FlushInOperationHides();
      case OperationInFlush => t := OperationInFlushHides();
      case PassBeginsInAdd => t := PassBeginsInAddHides();
      case PassEndsInUncount => t := PassEndsInUncountHides();
      case UncountInRemoval => t := UncountInRemovalHides();
    }
  }

  /** What is possible with fewer overlaps is possible with more. */
  lemma {:induction false} MoreAllowed(a: set<Overlap>, b: set<Overlap>, s: State, steps: seq<Step>)
    requires a <= b && Run(Next(a), s, steps).Some?
    ensures Run(Next(b), s, steps) == Run(Next(a), s, steps)
    decreases |steps|
  {
    if steps != [] {
      MoreAllowed(a, b, Apply(s, steps[0]), steps[1..]);
    }
  }

  /**
   * For any set of overlaps that may happen, no run hides a key if and only
   * if the set is empty: each of the seven alone is enough to hide one.
   */
  lemma NothingHiddenIff(allowed: set<Overlap>)
    ensures Reliable(allowed) <==> allowed == {}
  {
    if allowed == {} {
      forall s, t | Init(s) && Leads(Next(allowed), s, t) ensures !Hides(t) {
        NothingHidden(s, t);
      }
    } else {
      var o :| o in allowed;
      var t := OverlapHides(o);
      var steps: seq<Step> :| Run(Next({o}), Start(), steps) == Some(t);
      MoreAllowed({o}, allowed, Start(), steps);
      Started(allowed);
      assert Leads(Next(allowed), Start(), t);
    }
  }

  // ------------------------------------------ operations one after another

  predicate AllIdle(calls: seq<Pc>) { forall c :: 0 <= c < |calls| ==> calls[c].Idle? }

  /** Nobody else is in the middle of anything. */
  predicate Alone(s: State, step: Step) {
    match step
    case Rehash(_, _, _) => AllIdle(s.calls)
    case Thread(_, _) => AllIdle(s.calls)
    case _ =>
      (s.scan.phase.Resting? || s.scan.phase.Between?) &&
      forall d :: 0 <= d < |s.calls| && d != step.c ==> s.calls[d].Idle?
  }

  lemma {:induction false} SumAlone(calls: seq<Pc>, c: nat, w: Pc -> nat)
    requires c < |calls| && w(Idle) == 0 && forall d :: 0 <= d < |calls| && d != c ==> calls[d].Idle?
    ensures Sum(calls, w) == w(calls[c])
  {
    var front := calls[..|calls| - 1];
    if c < |front| {
      SumAlone(front, c, w);
    } else {
      SumIdle(front, w);
    }
  }

  lemma AloneMakesNoOverlap(s: State, step: Step)
    requires Possible(s, step) && Alone(s, step)
    ensures NoneAllowed(s, step)
  {
    if step.Thread? || step.Rehash? {
      SumIdle(s.calls, Adding);
      SumIdle(s.calls, Lowering);
    } else {
      SumAlone(s.calls, step.c, Held);
      SumAlone(s.calls, step.c, Taking);
      SumAlone(s.calls, step.c, Clearing);
    }
  }

  /** The machine in which whole operations, chunks and ends of passes follow one another. */
  ghost function NextAlone(): (State, Step) -> Option<State> {
    (s: State, step: Step) => if Possible(s, step) && Alone(s, step) then Some(Apply(s, step)) else None
  }

  /** If everything runs alone, the counter is never below the number of entries with an expiry. */
  lemma NeverBelow(s: State, t: State)
    requires Init(s) && Leads(NextAlone(), s, t)
    ensures Quiet(t) ==> Total(t.shards) <= t.count
  {
    InitInv(s);
    forall x, step | Inv(x) && NextAlone()(x, step).Some? ensures Inv(NextAlone()(x, step).value) {
      AloneMakesNoOverlap(x, step);
      StepKeepsInv(x, step);
    }
    LeadsKeeps(NextAlone(), Inv, s, t);
    if Quiet(t) {
      QuietCounts(t);
    }
  }

  // ------------------------------------------- an undisturbed pass is exact

  /** One step of the thread, with the clock and the chunk size it uses. */
  datatype Turn = Turn(now: nat, max: nat)

  /** The thread alone, up to the end of its pass. */
  ghost function PassNext(): (State, Turn) -> Option<State> {
    (s: State, t: Turn) =>
      if s.scan.phase.Resting? || !Possible(s, Thread(t.now, t.max)) then None else Some(Advance(s, t.now, t.max))
  }

  predicate AtStart(s: State) {
    s.scan.phase.Between? && s.scan.shard == 0 && s.scan.slot == 0 && s.scan.live == 0 && s.scan.gen == s.gen
  }

  /** The scan has counted exactly what it has passed. */
  ghost predicate Exact(s: State) {
    && Inv(s) && AllIdle(s.calls) && !s.scan.phase.Resting? && s.scan.gen == s.gen
    && (s.scan.phase.Entered? ==> s.count > 0)
    && (Passing(s.scan.phase) ==> Covered(s) == s.scan.live && (s.scan.shard < |s.shards| ==> SameTable(s)))
    && (s.scan.phase.Observed? || s.scan.phase.Armed? ==> s.scan.phase.n == s.count && s.scan.live == Total(s.shards))
  }

  ghost predicate Done(s: State) { s.scan.phase.Resting? && s.count == Total(s.shards) }

  ghost predicate OnTheWay(s: State) { Exact(s) || Done(s) }

  lemma StartExact(s: State)
    requires Inv(s) && AllIdle(s.calls) && AtStart(s)
    ensures Exact(s)
  {
    assert s.shards[..0] == [] && s.shards[0][..0] == [];
  }

  /** The chunk ends in the table it began in: on to the next slots, the next shard, or the end. */
  lemma ChunkEndExact(s: State)
    requires Exact(s) && s.scan.phase.Visiting? && (s.scan.phase.left == 0 || s.scan.slot >= |Table(s)|)
    requires Inv(Visit(s))
    ensures Exact(Visit(s))
  {
    var t := s.shards[s.scan.shard];
    if s.scan.slot == |t| {
      assert t[..|t|] == t;
      TotalAtLeast(s.shards, s.scan.shard);
      if s.scan.shard + 1 < |s.shards| {
        assert s.shards[s.scan.shard + 1][..0] == [];
      }
    }
  }

  lemma VisitExact(s: State)
    requires Exact(s) && s.scan.phase.Visiting? && Inv(Visit(s))
    ensures Exact(Visit(s))
  {
    var p, t := s.scan.phase, s.shards[s.scan.shard];
    if p.left == 0 || s.scan.slot >= |t| {
      ChunkEndExact(s);
    } else if !(t[s.scan.slot].Some? && Expired(t[s.scan.slot].value, p.now)) {
      assert t[..s.scan.slot + 1] == t[..s.scan.slot] + [t[s.scan.slot]];
    }
  }

  lemma RemoveExact(s: State)
    requires Exact(s) && s.scan.phase.Removing? && Inv(Remove(s))
    ensures Exact(Remove(s))
  {
    var i, j := s.scan.shard, s.scan.slot;
    var t' := Put(s, i, j, None).shards[i];
    assert t'[..j + 1] == s.shards[i][..j] + [None];
    TotalPrefixUpdate(s.shards, i, t', i);
  }

  lemma TurnKeepsExact(s: State, t: Turn)
    requires Exact(s) && t.max > 0
    ensures Possible(s, Thread(t.now, t.max)) && OnTheWay(Advance(s, t.now, t.max))
  {
    AloneMakesNoOverlap(s, Thread(t.now, t.max));
    StepThread(s, t.now, t.max);
    match s.scan.phase {
      case Between => if s.count == 0 { QuietCounts(s); }
      case Visiting(_, _, _, _) => VisitExact(s);
      case Removing(_, _, _, _) => RemoveExact(s);
      case Checked => assert s.shards[..|s.shards|] == s.shards;
      case _ =>
    }
  }

  /** A pass in which nothing else happens leaves exactly the number of entries that have an expiry. */
  lemma QuietPassExact(s: State, t: State)
    requires Inv(s) && AllIdle(s.calls) && AtStart(s) && Leads(PassNext(), s, t)
    ensures t.scan.phase.Resting? ==> t.count == Total(t.shards)
  {
    StartExact(s);
    forall x, turn | OnTheWay(x) && PassNext()(x, turn).Some? ensures OnTheWay(PassNext()(x, turn).value) {
      TurnKeepsExact(x, turn);
    }
    LeadsKeeps(PassNext(), OnTheWay, s, t);
  }

  // ------------------------------------------- and takes away what has expired

  /** The thread alone, by a clock that stands at the given time. */
  ghost function PassNextAt(now: nat): (State, Turn) -> Option<State> {
    (s: State, t: Turn) =>
      if t.now != now || s.scan.phase.Resting? || !Possible(s, Thread(now, t.max)) then None
      else Some(Advance(s, now, t.max))
  }

  /** What a slot holds once what has expired is taken away. */
  function Kept(x: Option<nat>, now: nat): Option<nat> {
    if x.Some? && 0 < x.value <= now then None else x
  }

  /** The thread has gone by slot b of shard a. */
  predicate GoneBy(s: State, a: nat, b: nat) { a < s.scan.shard || (a == s.scan.shard && b < s.scan.slot) }

  ghost predicate SameSizes(a: seq<Slots>, b: seq<Slots>) {
    |a| == |b| && forall i :: 0 <= i < |a| ==> |a[i]| == |b[i]|
  }

  /** Behind the thread what has expired is gone; everything else is as it was. */
  ghost predicate SweptBehind(s0: State, s: State, now: nat) {
    && SameSizes(s0.shards, s.shards)
    && (InChunk(s) ==> s.scan.phase.now == now)
    && forall a, b :: 0 <= a < |s.shards| && 0 <= b < |s.shards[a]| ==>
         s.shards[a][b] == if GoneBy(s, a, b) then Kept(s0.shards[a][b], now) else s0.shards[a][b]
  }

  ghost predicate AllKept(s0: State, s: State, now: nat) {
    && SameSizes(s0.shards, s.shards)
    && forall a, b :: 0 <= a < |s.shards| && 0 <= b < |s.shards[a]| ==> s.shards[a][b] == Kept(s0.shards[a][b], now)
  }

  /** On its way, or at rest with everything swept. */
  ghost predicate Sweeping(s0: State, s: State, now: nat) {
    if s.scan.phase.Resting? then AllKept(s0, s, now) else Exact(s) && SweptBehind(s0, s, now)
  }

  lemma {:induction false} NoTtlInSlots(t: Slots, j: nat)
    requires Ttls(t) == 0 && j < |t|
    ensures !HasTtl(t[j])
  {
    if j < |t| - 1 {
      NoTtlInSlots(t[..|t| - 1], j);
    }
  }

  lemma {:induction false} NoTtlInShards(shards: seq<Slots>, i: nat)
    requires Total(shards) == 0 && i < |shards|
    ensures Ttls(shards[i]) == 0
  {
    if i < |shards| - 1 {
      NoTtlInShards(shards[..|shards| - 1], i);
    }
  }

  /** With nothing left to expire, what lies ahead needs no sweeping. */
  lemma NothingLeft(s0: State, s: State, now: nat)
    requires SweptBehind(s0, s, now) && Total(s.shards) == 0
    ensures AllKept(s0, s, now)
  {
    forall a, b | 0 <= a < |s.shards| && 0 <= b < |s.shards[a]| ensures s.shards[a][b] == Kept(s0.shards[a][b], now) {
      NoTtlInShards(s.shards, a);
      NoTtlInSlots(s.shards[a], b);
    }
  }

  lemma VisitSweeps(s0: State, s: State, now: nat)
    requires Exact(s) && SweptBehind(s0, s, now) && s.scan.phase.Visiting?
    ensures !Visit(s).scan.phase.Resting? && SweptBehind(s0, Visit(s), now)
  {
    var s' := Visit(s);
    assert s'.shards == s.shards;
    forall a, b | 0 <= a < |s.shards| && 0 <= b < |s.shards[a]|
      ensures s'.shards[a][b] == if GoneBy(s', a, b) then Kept(s0.shards[a][b], now) else s0.shards[a][b]
    {
    }
  }

  lemma RemoveSweeps(s0: State, s: State, now: nat)
    requires Exact(s) && SweptBehind(s0, s, now) && s.scan.phase.Removing?
    requires var x := s.shards[s.scan.shard][s.scan.slot]; x.Some? && 0 < x.value <= now
    ensures !Remove(s).scan.phase.Resting? && SweptBehind(s0, Remove(s), now)
  {
  }

  /** What is being removed has expired. */
  predicate RemovesExpired(s: State, now: nat) {
    s.scan.phase.Removing? && InRange(s, s.scan.shard, s.scan.slot) ==>
      var x := s.shards[s.scan.shard][s.scan.slot]; x.Some? && 0 < x.value <= now
  }

  ghost predicate SweepInv(s0: State, s: State, now: nat) { Sweeping(s0, s, now) && RemovesExpired(s, now) }

  lemma TurnSweeps(s0: State, s: State, now: nat, max: nat)
    requires SweepInv(s0, s, now) && !s.scan.phase.Resting? && max > 0
    ensures Possible(s, Thread(now, max)) && SweepInv(s0, Advance(s, now, max), now)
  {
    TurnKeepsExact(s, Turn(now, max));
    SweepsOn(s0, s, now, max);
  }

  lemma SweepsOn(s0: State, s: State, now: nat, max: nat)
    requires Exact(s) && SweptBehind(s0, s, now) && RemovesExpired(s, now) && Possible(s, Thread(now, max))
    ensures var s' := Advance(s, now, max);
            && RemovesExpired(s', now)
            && if s'.scan.phase.Resting? then AllKept(s0, s', now) else SweptBehind(s0, s', now)
  {
    match s.scan.phase {
      case Between => if s.count == 0 { QuietCounts(s); NothingLeft(s0, s, now); }
      case Visiting(_, _, _, _) => VisitSweeps(s0, s, now);
      case Removing(_, _, _, _) => RemoveSweeps(s0, s, now);
      case _ => EndSweeps(s0, s, now, max);
    }
  }

  /** Outside the tables nothing changes, and at the end nothing lies ahead. */
  lemma EndSweeps(s0: State, s: State, now: nat, max: nat)
    requires Exact(s) && SweptBehind(s0, s, now) && !InChunk(s) && !s.scan.phase.Between?
    ensures var s' := Advance(s, now, max);
            s'.shards == s.shards &&
            if s'.scan.phase.Resting? then AllKept(s0, s', now) else SweptBehind(s0, s', now)
  {
  }

  /** A pass in which nothing else happens takes away exactly the entries that have expired. */
  lemma QuietPassSweeps(s: State, t: State, now: nat)
    requires Inv(s) && AllIdle(s.calls) && AtStart(s) && Leads(PassNextAt(now), s, t) && t.scan.phase.Resting?
    ensures SameSizes(s.shards, t.shards)
    ensures forall a, b :: 0 <= a < |t.shards| && 0 <= b < |t.shards[a]| ==>
              var x := s.shards[a][b];
              t.shards[a][b] == if x.Some? && 0 < x.value <= now then None else x
  {
    StartExact(s);
    var inv := (x: State) => SweepInv(s, x, now);
    forall x, turn | inv(x) && PassNextAt(now)(x, turn).Some? ensures inv(PassNextAt(now)(x, turn).value) {
      TurnSweeps(s, x, now, turn.max);
    }
    LeadsKeeps(PassNextAt(now), inv, s, t);
  }

  function Width(shards: seq<Slots>): nat {
    if shards == [] then 0 else |shards[0]| + 1 + Width(shards[1..])
  }

  function Rank(p: Phase): nat {
    match p
    case Between => 5
    case Entered(_) => 4
    case Visiting(_, left, _, _) => if left == 0 then 6 else 3
    case Removing(_, _, _, _) => 2
    case Ended => 4
    case Checked => 3
    case Observed(_) => 2
    case Armed(_) => 1
    case Resting => 0
  }

  /** How far the pass is from its end. */
  function Left(s: State): int
    requires s.scan.shard <= |s.shards|
  {
    6 * (Width(s.shards[s.scan.shard..]) - s.scan.slot) + Rank(s.scan.phase)
  }

  lemma {:induction false} SameWidth(a: seq<Slots>, b: seq<Slots>)
    requires |a| == |b| && forall i :: 0 <= i < |a| ==> |a[i]| == |b[i]|
    ensures Width(a) == Width(b)
  {
    if a != [] {
      SameWidth(a[1..], b[1..]);
    }
  }

  /** In a chunk there is something to visit, and positions stay inside the table. */
  predicate Tidy(s: State) {
    && (s.scan.phase.Entered? ==> s.scan.phase.max > 0)
    && (s.scan.phase.Removing? ==> s.scan.phase.left > 0)
    && (Passing(s.scan.phase) && s.scan.shard == |s.shards| ==> s.scan.slot == 0)
    && (s.scan.phase.Observed? || s.scan.phase.Armed? ==> s.scan.slot == 0)
  }

  ghost predicate Moving(s: State) { Exact(s) && Tidy(s) }

  /** In the same shard, of the same sizes, only slot and phase count. */
  lemma LeftWithin(s: State, s': State)
    requires s.scan.shard == s'.scan.shard <= |s.shards| == |s'.shards|
    requires forall i :: 0 <= i < |s.shards| ==> |s.shards[i]| == |s'.shards[i]|
    ensures Left(s') - Left(s) == 6 * (s.scan.slot - s'.scan.slot) + Rank(s'.scan.phase) - Rank(s.scan.phase)
  {
    SameWidth(s.shards[s.scan.shard..], s'.shards[s.scan.shard..]);
  }

  lemma LeftPositive(s: State)
    requires Moving(s)
    ensures Left(s) > 0
  {
    if s.scan.shard < |s.shards| {
      assert Width(s.shards[s.scan.shard..]) >= |s.shards[s.scan.shard]| + 1;
    }
  }

  lemma VisitProgress(s: State)
    requires s.scan.phase.Visiting? && s.scan.phase.stale.None? && s.scan.shard < |s.shards| == |s.scan.caps|
    requires SameTable(s) && s.scan.slot <= |s.shards[s.scan.shard]|
    ensures Left(Visit(s)) < Left(s)
    ensures Visit(s).scan.phase.Removing? ==> Visit(s).scan.phase.left > 0
    ensures Visit(s).scan.shard == |s.shards| ==> Visit(s).scan.slot == 0
  {
    var s', k := Visit(s), s.scan.shard;
    if s'.scan.shard == k {
      LeftWithin(s, s');
    } else {
      assert s.shards[k..][1..] == s.shards[k + 1..];
    }
  }

  lemma RemoveProgress(s: State)
    requires s.scan.phase.Removing? && s.scan.phase.stale.None? && s.scan.shard < |s.shards|
    requires s.scan.slot < |s.shards[s.scan.shard]|
    ensures Left(Remove(s)) < Left(s)
  {
    LeftWithin(s, Remove(s));
  }

  /** Outside the tables the phases follow one another. */
  lemma PhaseProgress(s: State, t: Turn)
    requires Shape(s) && !InChunk(s) && !s.scan.phase.Resting?
    requires s.scan.phase.Entered? ==> s.count > 0 && s.scan.phase.max > 0
    ensures var s' := Advance(s, t.now, t.max);
            || s'.scan.phase.Resting?
            || (s'.scan.shard == s.scan.shard && s'.scan.slot == s.scan.slot && Left(s') < Left(s))
  {
    var s' := Advance(s, t.now, t.max);
    if !s'.scan.phase.Resting? {
      LeftWithin(s, s');
    }
  }

  lemma TidyTurn(s: State, t: Turn)
    requires Shape(s) && Tidy(s) && !s.scan.phase.Resting? && t.max > 0 && (s.scan.phase.Entered? ==> s.count > 0)
    requires Passing(s.scan.phase) && s.scan.shard < |s.shards| ==> SameTable(s)
    ensures var s' := Advance(s, t.now, t.max);
            s'.scan.phase.Resting? || (Tidy(s') && Left(s') < Left(s))
  {
    match s.scan.phase {
      case Visiting(_, _, _, _) => VisitProgress(s);
      case Removing(_, _, _, _) => RemoveProgress(s);
      case _ => PhaseProgress(s, t);
    }
  }

  lemma TurnProgress(s: State, t: Turn)
    requires Moving(s) && t.max > 0
    ensures Possible(s, Thread(t.now, t.max))
    ensures var s' := Advance(s, t.now, t.max);
            s'.scan.phase.Resting? || (Moving(s') && Left(s') < Left(s))
  {
    TurnKeepsExact(s, t);
    TidyTurn(s, t);
  }

  lemma StartMoves(s: State)
    requires Inv(s) && AllIdle(s.calls) && AtStart(s)
    ensures Moving(s) && Left(s) == 6 * Width(s.shards) + 5
  {
    StartExact(s);
    assert s.shards[0..] == s.shards;
  }

  /** The pass is over after k of the given turns. */
  ghost predicate OverAfter(s: State, turns: seq<Turn>, k: nat) {
    k <= |turns| && var r := Run(PassNext(), s, turns[..k]); r.Some? && r.value.scan.phase.Resting?
  }

  lemma OneTurnBefore(s: State, turns: seq<Turn>, k: nat)
    requires turns != [] && PassNext()(s, turns[0]).Some? && OverAfter(PassNext()(s, turns[0]).value, turns[1..], k)
    ensures OverAfter(s, turns, k + 1)
  {
    assert turns[..k + 1][1..] == turns[1..][..k];
  }

  lemma {:induction false} MovingEnds(s: State, turns: seq<Turn>)
    requires Moving(s) && |turns| >= Left(s) && forall i :: 0 <= i < |turns| ==> turns[i].max > 0
    ensures exists k :: OverAfter(s, turns, k)
    decreases |turns|
  {
    LeftPositive(s);
    TurnProgress(s, turns[0]);
    var s1 := Advance(s, turns[0].now, turns[0].max);
    if s1.scan.phase.Resting? {
      assert turns[1..][..0] == [];
      OneTurnBefore(s, turns, 0);
    } else {
      MovingEnds(s1, turns[1..]);
      var k: nat :| OverAfter(s1, turns[1..], k);
      OneTurnBefore(s, turns, k);
    }
  }

  /** A pass ends after at most six steps for each slot and each shard, and five more. */
  lemma PassEnds(s: State, turns: seq<Turn>)
    requires Inv(s) && AllIdle(s.calls) && AtStart(s)
    requires |turns| >= 6 * Width(s.shards) + 5 && forall i :: 0 <= i < |turns| ==> turns[i].max > 0
    ensures exists k :: OverAfter(s, turns, k)
  {
    StartMoves(s);
    MovingEnds(s, turns);
  }
}
