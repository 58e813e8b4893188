/**
 * The store's side of key expiry as it runs: the counter, the generation,
 * the operations that change an expiry, and the expiry loop with its chunks.
 * Each method, run alone, performs a run of the machine in Ttl.
 */
module TtlStore {
  import opened Common
  import opened Runs
  import opened Ttl

  // -------------------------------------------------- operations run alone

  /** What an operation that runs alone leaves. */
  function Result(s: State, op: Op): State
    requires Ready(s, op)
  {
    match op
    case Set(i, j, e) => Counting(Put(s, i, j, Some(e)), e != 0)
    case SetString(i, j, e) => Counting(Put(s, i, j, Some(e)), e != 0)
    case Del(i, j) => Put(s, i, j, None)
    case Flush => FlushedAll(s)
    case _ =>
      var x := s.shards[op.i][op.j];
      if x.None? || Expired(x.value, op.now) then s
      else
        var s' := Put(s, op.i, op.j, Some(Renewal(op)));
        var pc := Accounting(op, x.value);
        if pc.Uncounting? then s'.(count := Less(s.count, 1)) else Counting(s', pc.Written?)
  }

  /** All tables are replaced, and the counter starts again. */
  function FlushedAll(s: State): State {
    s.(shards := seq(|s.shards|, _ => Blank(INITIAL_SHARD_CAPACITY)), gone := s.gone + s.shards,
       count := 0, gen := s.gen + 1)
  }

  function Counting(s: State, raise: bool): State {
    if raise then s.(count := s.count + 1, gen := s.gen + 1) else s
  }

  /** One caller, and a thread between two passes. */
  predicate OneCaller(s: State) { s.calls == [Idle] && s.scan.phase.Resting? }

  /** As many next steps of the one caller. */
  function Gos(n: nat): seq<Step> { seq(n, _ => Go(0)) }

  /** How many steps an operation takes from where its caller is, run alone. */
  function StepsFrom(pc: Pc): nat {
    match pc
    case Written => 2
    case Raising => 1
    case Uncounting => 1
    case _ => 0
  }

  /** The steps of an operation that runs alone. */
  function Steps(s: State, op: Op): seq<Step>
    requires Ready(s, op)
  {
    match op
    case Set(i, j, e) => [Call(0, op)] + if e == 0 then [] else [Go(0), Step.Insert(0, i, j)]
    case SetString(_, _, e) => [Call(0, op)] + Gos(if e == 0 then 0 else 2)
    case Del(_, _) => [Call(0, op)] + Gos(0)
    case Flush => [Call(0, op)] + Gos(|s.shards| + 2)
    case _ =>
      var x := s.shards[op.i][op.j];
      [Call(0, op)] + Gos(1 + if x.None? || Expired(x.value, op.now) then 0 else StepsFrom(Accounting(op, x.value)))
  }

  lemma RunCons(s: State, a: Step, steps: seq<Step>, s1: State, t: Option<State>)
    requires NextAlone()(s, a) == Some(s1) && Run(NextAlone(), s1, steps) == t
    ensures Run(NextAlone(), s, [a] + steps) == t
  {
    assert ([a] + steps)[1..] == steps;
  }

  lemma GosRun(s: State, n: nat, t: Option<State>)
    requires NextAlone()(s, Go(0)).Some? && Run(NextAlone(), NextAlone()(s, Go(0)).value, Gos(n)) == t
    ensures Run(NextAlone(), s, Gos(n + 1)) == t
  {
    assert Gos(n + 1) == [Go(0)] + Gos(n);
    RunCons(s, Go(0), Gos(n), NextAlone()(s, Go(0)).value, t);
  }

  /** What is left of an operation once its entry is written. */
  function Finished(s: State): State
    requires |s.calls| == 1
  {
    var s' := s.(calls := [Idle]);
    match s.calls[0]
    case Written => s'.(gen := s.gen + 1, count := s.count + 1)
    case Raising => s'.(count := s.count + 1)
    case Uncounting => s'.(count := Less(s.count, 1))
    case _ => s'
  }

  /** The accounting after the entry is written. */
  lemma FinishRuns(s: State)
    requires |s.calls| == 1 && s.scan.phase.Resting?
    requires s.calls[0].Idle? || s.calls[0].Written? || s.calls[0].Raising? || s.calls[0].Uncounting?
    ensures Run(NextAlone(), s, Gos(StepsFrom(s.calls[0]))) == Some(Finished(s))
    decreases StepsFrom(s.calls[0])
  {
    if s.calls[0].Idle? {
      assert s.calls == [Idle] && s == s.(calls := [Idle]);
    } else {
      var s1 := Apply(s, Go(0));
      assert s1.calls == [s1.calls[0]];
      FinishRuns(s1);
      GosRun(s, StepsFrom(s1.calls[0]), Some(Finished(s1)));
    }
  }

  lemma UpdateRuns(s: State, op: Op)
    requires OneCaller(s) && Ready(s, op) && Updates(op)
    ensures Run(NextAlone(), s, Steps(s, op)) == Some(Result(s, op))
  {
    var s1 := Apply(s, Call(0, op));
    assert s1 == s.(calls := [Found(op, Here)]);
    var s2 := Apply(s1, Go(0));
    assert s2.calls == [s2.calls[0]];
    FinishRuns(s2);
    assert Finished(s2) == Result(s, op);
    GosRun(s1, StepsFrom(s2.calls[0]), Some(Result(s, op)));
    RunCons(s, Call(0, op), Gos(1 + StepsFrom(s2.calls[0])), s1, Some(Result(s, op)));
  }

  /** A flush that has replaced the tables of the shards below k. */
  function ClearedTo(s: State, k: nat): State
    requires k <= |s.shards|
  {
    s.(shards := seq(k, _ => Blank(INITIAL_SHARD_CAPACITY)) + s.shards[k..], gone := s.gone + s.shards[..k],
       calls := [Flushing(k)])
  }

  lemma ClearedNext(s: State, k: nat)
    requires s.scan.phase.Resting? && k < |s.shards|
    ensures NextAlone()(ClearedTo(s, k), Go(0)) == Some(ClearedTo(s, k + 1))
  {
    var u, v := ClearedTo(s, k), ClearedTo(s, k + 1);
    var b := Blank(INITIAL_SHARD_CAPACITY);
    assert u.shards[k] == s.shards[k] && u.shards[k := b] == v.shards;
    assert s.shards[..k + 1] == s.shards[..k] + [s.shards[k]];
    assert u.gone + [s.shards[k]] == v.gone;
    assert AllStranded(u.calls, k, |u.gone|)[0 := Flushing(k + 1)] == [Flushing(k + 1)];
  }

  lemma {:induction false} FlushRuns(s: State, k: nat)
    requires OneCaller(s) && k <= |s.shards|
    ensures Run(NextAlone(), ClearedTo(s, k), Gos(|s.shards| - k + 2)) == Some(FlushedAll(s))
    decreases |s.shards| - k
  {
    if k < |s.shards| {
      ClearedNext(s, k);
      FlushRuns(s, k + 1);
      GosRun(ClearedTo(s, k), |s.shards| - k + 1, Some(FlushedAll(s)));
    } else {
      FlushEnds(s);
    }
  }

  lemma FlushEnds(s: State)
    requires OneCaller(s)
    ensures Run(NextAlone(), ClearedTo(s, |s.shards|), Gos(2)) == Some(FlushedAll(s))
  {
    var u := ClearedTo(s, |s.shards|);
    assert u.shards == FlushedAll(s).shards && u.gone == FlushedAll(s).gone by {
      assert s.shards[|s.shards|..] == [] && s.shards[..|s.shards|] == s.shards;
    }
    var v := Apply(u, Go(0));
    assert v.calls == [Zeroed];
    var w := Apply(v, Go(0));
    assert w.calls == [Idle];
    GosRun(v, 0, Some(w));
    GosRun(u, 1, Some(w));
  }

  /** The result of an operation is where its steps lead. */
  lemma ResultIsRun(s: State, op: Op)
    requires OneCaller(s) && Ready(s, op)
    ensures Run(NextAlone(), s, Steps(s, op)) == Some(Result(s, op))
  {
    var s1 := Apply(s, Call(0, op));
    match op {
      case Set(i, j, e) => SetRuns(s, i, j, e);
      case SetString(_, _, e) =>
        assert s1.calls == [s1.calls[0]];
        FinishRuns(s1);
        RunCons(s, Call(0, op), Gos(if e == 0 then 0 else 2), s1, Some(Result(s, op)));
      case Del(_, _) =>
        FinishRuns(s1);
        RunCons(s, Call(0, op), Gos(0), s1, Some(Result(s, op)));
      case Flush =>
        ClearedNone(s);
        FlushRuns(s, 0);
        RunCons(s, Call(0, op), Gos(|s.shards| + 2), s1, Some(Result(s, op)));
      case _ => UpdateRuns(s, op);
    }
  }

  lemma ClearedNone(s: State)
    requires OneCaller(s)
    ensures Apply(s, Call(0, Flush)) == ClearedTo(s, 0)
  {
    assert s.shards[0..] == s.shards && s.gone + s.shards[..0] == s.gone;
    assert s.calls[0 := Flushing(0)] == [Flushing(0)];
  }

  lemma SetRuns(s: State, i: nat, j: nat, e: nat)
    requires OneCaller(s) && InRange(s, i, j)
    ensures Run(NextAlone(), s, Steps(s, Op.Set(i, j, e))) == Some(Result(s, Op.Set(i, j, e)))
  {
    var a, c := Call(0, Op.Set(i, j, e)), Step.Insert(0, i, j);
    var s1 := Apply(s, a);
    if e == 0 {
      RunCons(s, a, [], s1, Some(s1));
    } else {
      var s2 := Apply(s1, Go(0));
      var s3 := Apply(s2, c);
      assert s1.calls == [Bumped(e)] && s2.calls == [Counted(e)] && s3.calls == [Idle];
      assert [c] == [c] + [];
      RunCons(s2, c, [], s3, Some(s3));
      RunCons(s1, Go(0), [c], s2, Some(s3));
      assert [Go(0), c] == [Go(0)] + [c];
      RunCons(s, a, [Go(0), c], s1, Some(s3));
    }
  }

  // --------------------------------------------------- chunks run alone

  function Sweep(x: Option<nat>, now: nat): Option<nat> {
    if x.Some? && Expired(x.value, now) then None else x
  }

  function SweepAll(s: Slots, now: nat): (r: Slots)
    ensures |r| == |s| && forall i :: 0 <= i < |s| ==> r[i] == Sweep(s[i], now)
  {
    if s == [] then [] else SweepAll(s[..|s| - 1], now) + [Sweep(s[|s| - 1], now)]
  }

  /** How many entries a sweep removes. */
  function ExpiredIn(s: Slots, now: nat): nat {
    if s == [] then 0
    else
      var x := s[|s| - 1];
      ExpiredIn(s[..|s| - 1], now) + if x.Some? && Expired(x.value, now) then 1 else 0
  }

  function Min(a: nat, b: nat): nat { if a <= b then a else b }

  /** Slots lo to hi swept, the others as they were. */
  function Swept(s: Slots, lo: nat, hi: nat, now: nat): (r: Slots)
    requires lo <= hi <= |s|
    ensures |r| == |s|
  {
    seq(|s|, i requires 0 <= i < |s| => if lo <= i < hi then Sweep(s[i], now) else s[i])
  }

  lemma SweptNone(s: Slots, lo: nat, now: nat)
    requires lo <= |s|
    ensures Swept(s, lo, lo, now) == s && Ttls(SweepAll(s[lo..lo], now)) == 0 && ExpiredIn(s[lo..lo], now) == 0
  {
    assert s[lo..lo] == [] && SweepAll([], now) == [];
  }

  /** What has expired in the slots from lo to hi is gone, and nothing else. */
  lemma SweptMeans(s: Slots, lo: nat, hi: nat, now: nat, i: nat)
    requires lo <= hi <= |s| && i < |s|
    ensures Swept(s, lo, hi, now)[i] == if lo <= i < hi && s[i].Some? && 0 < s[i].value <= now then None else s[i]
  {
  }

  lemma SweptTable(s: Slots, lo: nat, k: nat, now: nat)
    requires lo <= k < |s|
    ensures Swept(s, lo, k, now)[k] == s[k]
    ensures Swept(s, lo, k + 1, now) == Swept(s, lo, k, now)[k := Sweep(s[k], now)]
    ensures Sweep(s[k], now) == s[k] ==> Swept(s, lo, k + 1, now) == Swept(s, lo, k, now)
  {
  }

  lemma SweptCounts(s: Slots, lo: nat, k: nat, now: nat)
    requires lo <= k < |s|
    ensures Ttls(SweepAll(s[lo..k + 1], now)) == Ttls(SweepAll(s[lo..k], now)) + One(Sweep(s[k], now))
    ensures ExpiredIn(s[lo..k + 1], now) == ExpiredIn(s[lo..k], now) + if Gone(s[k], now) then 1 else 0
  {
    var part := s[lo..k + 1];
    assert part[..|part| - 1] == s[lo..k] && part[|part| - 1] == s[k];
    var swept := SweepAll(part, now);
    assert swept[..|swept| - 1] == SweepAll(s[lo..k], now);
  }

  lemma SweptOne(s: Slots, lo: nat, k: nat, now: nat)
    requires lo <= k < |s|
    ensures SweptBy(s, lo, k + 1, now) == Onward(SweptBy(s, lo, k, now), k, now)
    ensures Swept(s, lo, k, now)[k] == s[k]
  {
    SweptTable(s, lo, k, now);
    SweptCounts(s, lo, k, now);
  }

  predicate Gone(x: Option<nat>, now: nat) { x.Some? && Expired(x.value, now) }

  /** How far a chunk is: its table, and what it has removed and found. */
  datatype Progress = Progress(t: Slots, removed: nat, found: nat)

  /** One more slot, which stays or is emptied. */
  function Onward(p: Progress, k: nat, now: nat): (r: Progress)
    requires k < |p.t|
    ensures |r.t| == |p.t|
  {
    if Gone(p.t[k], now) then Progress(p.t[k := None], p.removed + 1, p.found)
    else Progress(p.t, p.removed, p.found + One(p.t[k]))
  }

  /** Slot after slot from lo to k. */
  function Sweeping(t: Slots, lo: nat, k: nat, now: nat): (p: Progress)
    requires lo <= k <= |t|
    ensures |p.t| == |t|
    decreases k
  {
    if k == lo then Progress(t, 0, 0) else Onward(Sweeping(t, lo, k - 1, now), k - 1, now)
  }

  /** The same, told from the slots as they were. */
  function SweptBy(t: Slots, lo: nat, k: nat, now: nat): Progress
    requires lo <= k <= |t|
  {
    Progress(Swept(t, lo, k, now), ExpiredIn(t[lo..k], now), Ttls(SweepAll(t[lo..k], now)))
  }

  lemma SweptByNone(t: Slots, lo: nat, now: nat)
    requires lo <= |t|
    ensures SweptBy(t, lo, lo, now) == Progress(t, 0, 0)
  {
    SweptNone(t, lo, now);
  }

  lemma {:induction false} SweepingIs(t: Slots, lo: nat, k: nat, now: nat)
    requires lo <= k <= |t|
    ensures Sweeping(t, lo, k, now) == SweptBy(t, lo, k, now)
    decreases k
  {
    if k == lo {
      SweptByNone(t, lo, now);
    } else {
      SweepingIs(t, lo, k - 1, now);
      SweptOne(t, lo, k - 1, now);
    }
  }

  /** The chunk stands at slot k. */
  function Mid(s: State, q: Progress, k: nat): State
    requires s.scan.phase.Visiting? && s.scan.shard < |s.shards| && s.scan.slot <= k
  {
    var c, p := s.scan, s.scan.phase;
    s.(shards := s.shards[c.shard := q.t], count := Less(s.count, q.removed),
       scan := c.(phase := Visiting(p.first, Less(p.left, k - c.slot), p.now, p.stale),
                  slot := k, live := c.live + q.found))
  }

  /** The chunk has visited the slots up to k. */
  function SweptTo(s: State, k: nat): State
    requires s.scan.phase.Visiting? && s.scan.shard < |s.shards| && s.scan.slot <= k <= |s.shards[s.scan.shard]|
  {
    Mid(s, Sweeping(s.shards[s.scan.shard], s.scan.slot, k, s.scan.phase.now), k)
  }

  ghost predicate InOwnChunk(s: State) {
    && s.scan.phase.Visiting? && s.scan.phase.stale.None? && AllIdle(s.calls)
    && s.scan.shard < |s.shards| == |s.scan.caps| && s.scan.slot <= |s.shards[s.scan.shard]|
  }

  lemma ThreadMoves(s0: State, s: State)
    requires Leads(NextAlone(), s0, s) && AllIdle(s.calls) && |s.scan.caps| == |s.shards| && InPlace(s)
    ensures forall now, max :: max > 0 ==> Leads(NextAlone(), s0, Advance(s, now, max))
  {
    forall now, max | max > 0 ensures Leads(NextAlone(), s0, Advance(s, now, max)) {
      LeadsOn(NextAlone(), s0, s, Thread(now, max));
    }
  }

  lemma MidNext(s: State, q: Progress, k: nat)
    requires InOwnChunk(s) && s.scan.slot <= k < |q.t| == |s.shards[s.scan.shard]|
    requires k - s.scan.slot < s.scan.phase.left
    ensures var u, next := Mid(s, q, k), Mid(s, Onward(q, k, s.scan.phase.now), k + 1);
            && InOwnChunk(u) && u.shards[s.scan.shard] == q.t && u.scan.phase.left > 0
            && if Gone(q.t[k], s.scan.phase.now) then Visit(u).scan.phase.Removing? && Remove(Visit(u)) == next
               else Visit(u) == next
  {
    Overwritten(s.shards, s.scan.shard, q.t, q.t[k := None]);
  }

  lemma Overwritten(shards: seq<Slots>, i: nat, a: Slots, b: Slots)
    requires i < |shards|
    ensures shards[i := a][i := b] == shards[i := b] && shards[i := a][i] == a
  {
  }

  lemma SlotLeads(s0: State, u: State)
    requires Leads(NextAlone(), s0, u) && InOwnChunk(u)
    requires u.scan.slot < |u.shards[u.scan.shard]| && u.scan.phase.left > 0
    ensures var x := u.shards[u.scan.shard][u.scan.slot];
            Leads(NextAlone(), s0, if x.Some? && Expired(x.value, u.scan.phase.now) then Remove(Visit(u)) else Visit(u))
  {
    ThreadMoves(s0, u);
    assert Advance(u, 0, 1) == Visit(u);
    if Visit(u).scan.phase.Removing? {
      ThreadMoves(s0, Visit(u));
      assert Advance(Visit(u), 0, 1) == Remove(Visit(u));
    }
  }

  lemma SweptToStart(s: State)
    requires InOwnChunk(s)
    ensures SweptTo(s, s.scan.slot) == s
  {
    assert s.shards[s.scan.shard := s.shards[s.scan.shard]] == s.shards;
  }

  /** Visiting slot after slot leads to the swept range. */
  lemma {:induction false} ChunkLeads(s0: State, s: State, k: nat)
    requires Leads(NextAlone(), s0, s) && InOwnChunk(s)
    requires s.scan.slot <= k <= |s.shards[s.scan.shard]| && k - s.scan.slot <= s.scan.phase.left
    ensures Leads(NextAlone(), s0, SweptTo(s, k))
    decreases k
  {
    if k == s.scan.slot {
      SweptToStart(s);
    } else {
      ChunkLeads(s0, s, k - 1);
      NextSlotLeads(s0, s, k);
    }
  }

  lemma NextSlotLeads(s0: State, s: State, k: nat)
    requires InOwnChunk(s) && s.scan.slot < k <= |s.shards[s.scan.shard]| && k - s.scan.slot <= s.scan.phase.left
    requires Leads(NextAlone(), s0, SweptTo(s, k - 1))
    ensures Leads(NextAlone(), s0, SweptTo(s, k))
  {
    MidLeads(s0, s, Sweeping(s.shards[s.scan.shard], s.scan.slot, k - 1, s.scan.phase.now), k - 1);
  }

  lemma MidLeads(s0: State, s: State, q: Progress, k: nat)
    requires InOwnChunk(s) && s.scan.slot <= k < |q.t| == |s.shards[s.scan.shard]|
    requires k - s.scan.slot < s.scan.phase.left && Leads(NextAlone(), s0, Mid(s, q, k))
    ensures Leads(NextAlone(), s0, Mid(s, Onward(q, k, s.scan.phase.now), k + 1))
  {
    MidNext(s, q, k);
    SlotLeads(s0, Mid(s, q, k));
  }

  /** The thread at the beginning of a pass. */
  function Restarted(s: State): State { s.(scan := Scan(Between, 0, 0, 0, s.gen, s.scan.caps)) }

  /** The slots of a chunk, visited. */
  function ChunkDone(s: State, now: nat, max: nat): State
    requires s.scan.shard < |s.shards|
  {
    var v := s.(scan := s.scan.(phase := Visiting(s.scan.slot, max, now, None)));
    var cap := |s.shards[s.scan.shard]|;
    if s.scan.slot <= cap then SweptTo(v, Min(s.scan.slot + max, cap)) else v
  }

  /** What a pass that is over does to the counter, and on to the next pass. */
  function PassClosed(s: State): State {
    Restarted(if s.scan.phase.Ended? && s.gen == s.scan.gen then s.(count := s.scan.live) else s)
  }

  function Closed(s: State): State { if s.scan.phase.Between? then s else PassClosed(s) }

  /** One turn of the loop: a chunk, and the end of the pass if that was the last. */
  function TurnResult(s: State, now: nat, max: nat): State
    requires s.scan.shard < |s.shards| == |s.scan.caps|
  {
    if s.count == 0 then Restarted(s)
    else
      Closed(AfterChunk(ChunkDone(s, now, max), s.scan.slot, |s.shards[s.scan.shard]|))
  }

  lemma CloseLeads(s0: State, s: State)
    requires Leads(NextAlone(), s0, s) && AllIdle(s.calls) && |s.scan.caps| == |s.shards|
    requires s.scan.phase.Ended? || s.scan.phase.Resting?
    ensures Leads(NextAlone(), s0, PassClosed(s))
  {
    ThreadMoves(s0, s);
    var s1 := Advance(s, 0, 1);
    if s.scan.phase.Ended? {
      ThreadMoves(s0, s1);
      if s1.scan.phase.Checked? {
        var s2 := Advance(s1, 0, 1);
        ThreadMoves(s0, s2);
        var s3 := Advance(s2, 0, 1);
        ThreadMoves(s0, s3);
        var s4 := Advance(s3, 0, 1);
        ThreadMoves(s0, s4);
        assert Advance(s4, 0, 1) == PassClosed(s);
      } else {
        assert Advance(s1, 0, 1) == PassClosed(s);
      }
    } else {
      assert s1 == PassClosed(s);
    }
  }

  /** A turn of the loop is a run of the thread. */
  lemma TurnIsRun(s: State, now: nat, max: nat)
    requires s.scan.phase.Between? && s.scan.shard < |s.shards| == |s.scan.caps| && AllIdle(s.calls) && max > 0
    ensures Leads(NextAlone(), s, TurnResult(s, now, max))
  {
    LeadsNowhere(NextAlone(), s);
    ThreadMoves(s, s);
    var s1 := Advance(s, now, max);
    ThreadMoves(s, s1);
    if s.count == 0 {
      assert Advance(s1, 0, 1) == Restarted(s);
    } else {
      var v := s.(scan := s.scan.(phase := Visiting(s.scan.slot, max, now, None)));
      assert Advance(s1, now, max) == v;
      ChunkClosed(s, now, max, v);
    }
  }

  lemma ChunkClosed(s: State, now: nat, max: nat, v: State)
    requires s.scan.phase.Between? && s.scan.shard < |s.shards| == |s.scan.caps| && AllIdle(s.calls) && s.count > 0
    requires v == s.(scan := s.scan.(phase := Visiting(s.scan.slot, max, now, None))) && Leads(NextAlone(), s, v)
    ensures Leads(NextAlone(), s, TurnResult(s, now, max))
  {
    var cap := |s.shards[s.scan.shard]|;
    if s.scan.slot <= cap {
      ChunkLeads(s, v, Min(s.scan.slot + max, cap));
    }
    ChunkDoneEnds(s, now, max);
    EndLeads(s, ChunkDone(s, now, max));
  }

  lemma ChunkDoneEnds(s: State, now: nat, max: nat)
    requires s.scan.shard < |s.shards| == |s.scan.caps|
    ensures var c, cap := ChunkDone(s, now, max), |s.shards[s.scan.shard]|;
            && AtChunkEnd(c) && c.calls == s.calls && c.scan.phase.first == s.scan.slot
            && c.scan.shard == s.scan.shard && |c.shards[c.scan.shard]| == cap
  {
  }

  predicate AtChunkEnd(c: State) {
    && c.scan.phase.Visiting? && c.scan.phase.stale.None? && c.scan.shard < |c.shards| == |c.scan.caps|
    && (c.scan.phase.left == 0 || c.scan.slot >= |c.shards[c.scan.shard]|)
  }

  lemma EndLeads(s0: State, c: State)
    requires Leads(NextAlone(), s0, c) && AtChunkEnd(c) && AllIdle(c.calls)
    ensures Leads(NextAlone(), s0, Closed(AfterChunk(c, c.scan.phase.first, |c.shards[c.scan.shard]|)))
  {
    ThreadMoves(s0, c);
    var a := AfterChunk(c, c.scan.phase.first, |c.shards[c.scan.shard]|);
    assert Advance(c, 0, 1) == a;
    if !a.scan.phase.Between? {
      CloseLeads(s0, a);
    }
  }

  /** What follows a chunk depends on neither the phase nor how far past the table the slot is. */
  lemma AfterChunkSame(a: State, b: State, first: nat, cap: nat)
    requires a.scan.shard < |a.scan.caps| && b == a.(scan := a.scan.(phase := b.scan.phase, slot := b.scan.slot))
    requires a.scan.slot == b.scan.slot || (a.scan.slot >= cap && b.scan.slot >= cap)
    ensures AfterChunk(a, first, cap) == AfterChunk(b, first, cap)
  {
  }

  /** The state after a chunk that stops at slot k. */
  function StoppedAt(s: State, q: Progress, k: nat): State
    requires s.scan.shard < |s.shards|
  {
    s.(shards := s.shards[s.scan.shard := q.t], count := Less(s.count, q.removed),
       scan := s.scan.(slot := k, live := s.scan.live + q.found))
  }

  /** The state after a chunk, from what the chunk returns. */
  function Returned(s: State, now: nat, max: nat): State
    requires s.scan.shard < |s.shards|
  {
    var t := s.shards[s.scan.shard];
    var lo := Min(s.scan.slot, |t|);
    var hi := Min(lo + max, |t|);
    StoppedAt(s, SweptBy(t, lo, hi, now), hi)
  }

  lemma ReturnedIs(s: State, now: nat, max: nat, q: Progress, hi: nat)
    requires s.scan.shard < |s.shards|
    requires var t := s.shards[s.scan.shard];
             var lo := Min(s.scan.slot, |t|);
             hi == Min(lo + max, |t|) && q == SweptBy(t, lo, hi, now)
    ensures Returned(s, now, max) == StoppedAt(s, q, hi)
  {
  }

  lemma ChunkReturns(s: State, now: nat, max: nat)
    requires s.scan.shard < |s.shards| == |s.scan.caps|
    ensures var first, cap := s.scan.slot, |s.shards[s.scan.shard]|;
            AfterChunk(ChunkDone(s, now, max), first, cap) == AfterChunk(Returned(s, now, max), first, cap)
  {
    var t := s.shards[s.scan.shard];
    if s.scan.slot > |t| {
      SweptNone(t, |t|, now);
      assert s.shards[s.scan.shard := t] == s.shards;
    } else {
      ReturnsWithin(s, now, max);
    }
    AfterChunkSame(ChunkDone(s, now, max), Returned(s, now, max), s.scan.slot, |t|);
  }

  lemma ReturnsWithin(s: State, now: nat, max: nat)
    requires s.scan.shard < |s.shards| && s.scan.slot <= |s.shards[s.scan.shard]|
    ensures var c, r := ChunkDone(s, now, max), Returned(s, now, max);
            c == r.(scan := r.scan.(phase := c.scan.phase))
  {
    var t, lo := s.shards[s.scan.shard], s.scan.slot;
    var hi := Min(lo + max, |t|);
    SweepingIs(t, lo, hi, now);
    var v := s.(scan := s.scan.(phase := Visiting(lo, max, now, None)));
    MidStops(s, v, SweptBy(t, lo, hi, now), hi);
    ChunkStops(s, now, max, v, hi);
  }

  lemma ChunkStops(s: State, now: nat, max: nat, v: State, hi: nat)
    requires s.scan.shard < |s.shards| && s.scan.slot <= |s.shards[s.scan.shard]|
    requires v == s.(scan := s.scan.(phase := Visiting(s.scan.slot, max, now, None)))
    requires hi == Min(s.scan.slot + max, |s.shards[s.scan.shard]|)
    ensures ChunkDone(s, now, max) == Mid(v, Sweeping(s.shards[s.scan.shard], s.scan.slot, hi, now), hi)
    ensures Returned(s, now, max) == StoppedAt(s, SweptBy(s.shards[s.scan.shard], s.scan.slot, hi, now), hi)
  {
  }

  lemma MidStops(s: State, v: State, q: Progress, k: nat)
    requires s.scan.shard < |s.shards| && s.scan.slot <= k && v.scan.phase.Visiting?
    requires v == s.(scan := s.scan.(phase := v.scan.phase))
    ensures var c, r := Mid(v, q, k), StoppedAt(s, q, k);
            c == r.(scan := r.scan.(phase := c.scan.phase))
  {
  }

  lemma ClearedPrefix(s: seq<Slots>, k: nat)
    requires k < |s|
    ensures var b := Blank(INITIAL_SHARD_CAPACITY);
            (seq(k, _ => b) + s[k..])[k := b] == seq(k + 1, _ => b) + s[k + 1..]
  {
  }

  /** Slot (i, j) holds x, and every other slot what it held. */
  ghost predicate Changed(before: seq<Slots>, after: seq<Slots>, i: nat, j: nat, x: Option<nat>) {
    && |after| == |before| && (forall a :: 0 <= a < |before| ==> |after[a]| == |before[a]|)
    && i < |after| && j < |after[i]| && after[i][j] == x
    && forall a, b :: 0 <= a < |before| && 0 <= b < |before[a]| && (a != i || b != j) ==> after[a][b] == before[a][b]
  }

  /** One caller at rest, between two passes. */
  function Still(shards: seq<Slots>, count: nat, gen: nat, caps: seq<nat>, gone: seq<Slots>): State {
    State(shards, count, gen, [Idle], Scan(Resting, 0, 0, 0, 0, caps), gone)
  }

  class Store {
    var shards: seq<Slots>
    var ttlCount: nat
    var ttlGeneration: nat

    constructor (n: nat)
      ensures |shards| == n && Total(shards) == 0 && ttlCount == 0
    {
      NoneCounted(INITIAL_SHARD_CAPACITY);
      EmptyShards(seq(n, _ => Blank(INITIAL_SHARD_CAPACITY)));
      shards := seq(n, _ => Blank(INITIAL_SHARD_CAPACITY));
      ttlCount := 0;
      ttlGeneration := 0;
    }

    /** The machine's state with one caller, between two passes. */
    ghost function View(caps: seq<nat>, gone: seq<Slots>): State
      reads this
    {
      Still(shards, ttlCount, ttlGeneration, caps, gone)
    }

    method AddTtl()
      modifies this`ttlCount, this`ttlGeneration
      ensures ttlCount == old(ttlCount) + 1 && ttlGeneration == old(ttlGeneration) + 1
    {
      ttlGeneration := ttlGeneration + 1;
      ttlCount := ttlCount + 1;
    }

    method SubTtl()
      modifies this`ttlCount
      ensures ttlCount == Less(old(ttlCount), 1)
    {
      if ttlCount > 0 {
        ttlCount := ttlCount - 1;
      }
    }

    method Write(i: nat, j: nat, x: Option<nat>)
      requires i < |shards| && j < |shards[i]|
      modifies this`shards
      ensures shards == old(shards)[i := old(shards)[i][j := x]]
    {
      shards := shards[i := shards[i][j := x]];
    }

    /** The counter first, then the entry. */
    method Set(i: nat, j: nat, expires: nat)
      requires i < |shards| && j < |shards[i]|
      modifies this
      ensures forall c, g ::
                View(c, g) ==
                Result(Still(old(shards), old(ttlCount), old(ttlGeneration), c, g), Op.Set(i, j, expires))
      ensures Changed(old(shards), shards, i, j, Some(expires))
      ensures ttlCount - old(ttlCount) == ttlGeneration - old(ttlGeneration) == if expires != 0 then 1 else 0
    {
      if expires != 0 {
        AddTtl();
      }
      Write(i, j, Some(expires));
    }

    /** The entry first, then the counter. */
    method SetString(i: nat, j: nat, expires: nat)
      requires i < |shards| && j < |shards[i]|
      modifies this
      ensures forall c, g ::
                View(c, g) ==
                Result(Still(old(shards), old(ttlCount), old(ttlGeneration), c, g), Op.SetString(i, j, expires))
      ensures Changed(old(shards), shards, i, j, Some(expires))
      ensures ttlCount - old(ttlCount) == ttlGeneration - old(ttlGeneration) == if expires != 0 then 1 else 0
    {
      Write(i, j, Some(expires));
      if expires != 0 {
        AddTtl();
      }
    }

    method ExpireMs(i: nat, j: nat, at: nat, now: nat) returns (ok: bool)
      requires i < |shards| && j < |shards[i]|
      modifies this
      ensures forall c, g ::
                View(c, g) ==
                Result(Still(old(shards), old(ttlCount), old(ttlGeneration), c, g), Expire(i, j, at, now))
      ensures var x := old(shards[i][j]);
              Changed(old(shards), shards, i, j, if x.Some? && (x.value == 0 || now < x.value) then Some(at) else x)
      ensures ttlCount - old(ttlCount) == ttlGeneration - old(ttlGeneration) == if ok then 1 else 0
      ensures ok <==> old(shards[i][j]) == Some(0)
    {
      var x := shards[i][j];
      if x.None? || Expired(x.value, now) {
        return false;
      }
      ok := x.value == 0;
      Write(i, j, Some(at));
      if ok {
        AddTtl();
      }
    }

    method Persist(i: nat, j: nat, now: nat) returns (ok: bool)
      requires i < |shards| && j < |shards[i]|
      modifies this
      ensures forall c, g ::
                View(c, g) ==
                Result(Still(old(shards), old(ttlCount), old(ttlGeneration), c, g), Op.Persist(i, j, now))
      ensures Changed(old(shards), shards, i, j, if ok then Some(0) else old(shards[i][j]))
      ensures ttlCount == (if ok && old(ttlCount) > 0 then old(ttlCount) - 1 else old(ttlCount))
      ensures ttlGeneration == old(ttlGeneration)
      ensures ok <==> old(shards[i][j]).Some? && old(shards[i][j]).value > now
    {
      var x := shards[i][j];
      if x.None? || Expired(x.value, now) || x.value == 0 {
        assert shards[i][j := x] == shards[i];
        return false;
      }
      Write(i, j, Some(0));
      SubTtl();
      return true;
    }

    /** An entry that is no string keeps its expiry. */
    method GetexMs(i: nat, j: nat, isString: bool, expires: nat, now: nat) returns (found: bool)
      requires i < |shards| && j < |shards[i]|
      modifies this
      ensures forall c, g ::
                var s := Still(old(shards), old(ttlCount), old(ttlGeneration), c, g);
                View(c, g) == if isString then Result(s, GetEx(i, j, expires, now)) else s
      ensures var x := old(shards[i][j]);
              && (found <==> isString && x.Some? && (x.value == 0 || now < x.value))
              && Changed(old(shards), shards, i, j, if found then Some(expires) else x)
              && ttlGeneration - old(ttlGeneration) == (if found && x.value == 0 && expires != 0 then 1 else 0)
              && ttlCount == (if found && x.value == 0 && expires != 0 then old(ttlCount) + 1
                              else if found && x.value != 0 && expires == 0 then Less(old(ttlCount), 1)
                              else old(ttlCount))
    {
      var x := shards[i][j];
      if x.None? || Expired(x.value, now) || !isString {
        return false;
      }
      Write(i, j, Some(expires));
      if x.value == 0 && expires != 0 {
        AddTtl();
      } else if x.value != 0 && expires == 0 {
        SubTtl();
      }
      return true;
    }

    method Del(i: nat, j: nat) returns (removed: bool)
      requires i < |shards| && j < |shards[i]|
      modifies this
      ensures forall c, g ::
                View(c, g) ==
                Result(Still(old(shards), old(ttlCount), old(ttlGeneration), c, g), Op.Del(i, j))
      ensures Changed(old(shards), shards, i, j, None)
      ensures ttlCount == old(ttlCount) && ttlGeneration == old(ttlGeneration)
      ensures removed == old(shards[i][j]).Some?
    {
      removed := shards[i][j].Some?;
      Write(i, j, None);
    }

    /** Shard by shard, then the counter. */
    method Flush()
      modifies this
      ensures forall c, g ::
                View(c, g + old(shards)) ==
                Result(Still(old(shards), old(ttlCount), old(ttlGeneration), c, g), Op.Flush)
      ensures |shards| == |old(shards)| && ttlCount == 0 && ttlGeneration == old(ttlGeneration) + 1
      ensures forall a :: 0 <= a < |shards| ==> |shards[a]| == 8 && forall b :: 0 <= b < 8 ==> shards[a][b].None?
    {
      ghost var s := shards;
      for k := 0 to |shards|
        invariant |shards| == |s| && ttlCount == old(ttlCount) && ttlGeneration == old(ttlGeneration)
        invariant shards == seq(k, _ => Blank(INITIAL_SHARD_CAPACITY)) + s[k..]
      {
        ClearedPrefix(s, k);
        shards := shards[k := Blank(INITIAL_SHARD_CAPACITY)];
      }
      assert s[|s|..] == [];
      ttlCount := 0;
      ttlGeneration := ttlGeneration + 1;
    }

    /** Removes the expired entries of some slots and counts them and those that will still expire. */
    method CleanupExpiredShard(shard: nat, start: nat, max: nat, now: nat)
      returns (live: nat, next: nat, capacity: nat, removed: nat)
      requires shard < |shards|
      modifies this`shards, this`ttlCount
      ensures old(ttlCount) == 0 ==> unchanged(this) && live == 0 && next == start && capacity == 0 && removed == 0
      ensures old(ttlCount) > 0 ==>
                var slots := old(shards[shard]);
                var lo := Min(start, |slots|);
                capacity == |slots| && next == Min(lo + max, |slots|) &&
                shards == old(shards)[shard := Swept(slots, lo, next, now)] &&
                live == Ttls(SweepAll(slots[lo..next], now)) && removed == ExpiredIn(slots[lo..next], now) &&
                ttlCount == Less(old(ttlCount), removed)
    {
      if ttlCount == 0 {
        return 0, start, 0, 0;
      }
      ghost var slots := shards[shard];
      capacity := |shards[shard]|;
      var lo := Min(start, capacity);
      next := Min(lo + max, capacity);
      live, removed := 0, 0;
      SweptNone(slots, lo, now);
      for k := lo to next
        invariant shards == old(shards)[shard := Swept(slots, lo, k, now)]
        invariant live == Ttls(SweepAll(slots[lo..k], now)) && removed == ExpiredIn(slots[lo..k], now)
        invariant ttlCount == Less(old(ttlCount), removed)
      {
        SweptOne(slots, lo, k, now);
        var x := shards[shard][k];
        if x.Some? && Expired(x.value, now) {
          SubTtl();
          removed := removed + 1;
          Write(shard, k, None);
          assert shards == old(shards)[shard := Swept(slots, lo, k, now)[k := None]];
        } else if HasTtl(x) {
          live := live + 1;
        }
      }
    }

    /** Replaces the counter if nothing was added since the scan began. */
    method FinishTtlScan(generation: nat, liveTtls: nat)
      modifies this`ttlCount
      ensures ttlCount == if ttlGeneration == generation then liveTtls else old(ttlCount)
    {
      if ttlGeneration != generation {
        return;
      }
      var observed := ttlCount;
      if ttlGeneration != generation {
        return;
      }
      if ttlCount == observed {
        ttlCount := liveTtls;
      }
    }
  }

  /** The expiry thread. */
  class Expirer {
    const store: Store
    var shard: nat
    var slot: nat
    var liveTtls: nat
    var generation: nat
    var capacities: seq<nat>

    ghost predicate Valid()
      reads this, store
    {
      shard < |store.shards| == |capacities|
    }

    /** The machine's state, between two chunks. */
    ghost function View(): State
      reads this, store
    {
      State(store.shards, store.ttlCount, store.ttlGeneration, [],
            Scan(Between, shard, slot, liveTtls, generation, capacities), [])
    }

    constructor (store: Store)
      requires |store.shards| > 0
      ensures Valid() && this.store == store && AtStart(View())
    {
      this.store := store;
      shard, slot, liveTtls := 0, 0, 0;
      generation := store.ttlGeneration;
      capacities := seq(|store.shards|, _ => 0);
    }

    method Restart()
      requires Valid()
      modifies this
      ensures Valid() && View() == Restarted(old(View()))
    {
      shard, slot, liveTtls := 0, 0, 0;
      generation := store.ttlGeneration;
    }

    /** Moves on after a chunk: to the next slots, the next shard, or the end of the pass. */
    method MoveOn(found: nat, next: nat, capacity: nat, ghost s: State)
      requires Valid() && capacity == |store.shards[shard]|
      requires s == View().(scan := View().scan.(slot := next, live := liveTtls + found))
      modifies this, store`ttlCount
      ensures Valid() && View() == Closed(AfterChunk(s, old(slot), capacity))
    {
      if slot == 0 {
        capacities := capacities[shard := capacity];
      } else if capacities[shard] != capacity {
        Restart();
        return;
      }
      liveTtls := liveTtls + found;
      if next < capacity {
        slot := next;
        return;
      }
      slot := 0;
      if shard + 1 < |store.shards| {
        shard := shard + 1;
        return;
      }
      store.FinishTtlScan(generation, liveTtls);
      Restart();
    }

    /** A chunk while there are keys to expire. */
    method Chunk(now: nat, max: nat)
      requires Valid() && store.ttlCount > 0
      modifies this, store
      ensures Valid()
      ensures var s := old(View());
              View() == Closed(AfterChunk(Returned(s, now, max), s.scan.slot, |s.shards[s.scan.shard]|))
    {
      ghost var s := View();
      var found, next, capacity, removed := store.CleanupExpiredShard(shard, slot, max, now);
      ghost var t := s.shards[s.scan.shard];
      ghost var lo := Min(s.scan.slot, |t|);
      ReturnedIs(s, now, max, SweptBy(t, lo, next, now), next);
      MoveOn(found, next, capacity, Returned(s, now, max));
    }

    /** One turn of the loop. */
    method Turn(now: nat, max: nat)
      requires Valid() && max > 0
      modifies this, store
      ensures Valid() && View() == TurnResult(old(View()), now, max)
    {
      if store.ttlCount == 0 {
        Restart();
        return;
      }
      ghost var s := View();
      Chunk(now, max);
      ChunkReturns(s, now, max);
    }
  }
}
