/** Open addressing with linear probing and tombstones: what a slot table is,
    when its probe chains are unbroken, and how single writes keep them so.
    Shared by the sequential map and by the concurrent insert protocol. */
module Probe {
  import opened Common

  /** An entry. A tombstone (occupied bit clear) is an entry without a value. */
  datatype Entry<+V> = Entry(hash: nat, key: string, value: Option<V>)

  type Table<+V> = seq<Option<Entry<V>>>

  const LOAD_NUM: nat := 9
  const LOAD_DEN: nat := 10

  /** The load threshold of a table of the given capacity. */
  function Threshold(cap: nat): nat { cap * LOAD_NUM / LOAD_DEN }

  /** The slot visited after d probe steps from the home slot of hash h. */
  function Pos(h: nat, d: nat, cap: nat): (i: nat)
    requires cap > 0
    ensures i < cap
  {
    (h % cap + d) % cap
  }

  /** How many probe steps lead from the home slot of h to slot i. */
  function Dist(h: nat, i: nat, cap: nat): (d: nat)
    requires i < cap
    ensures d < cap
  {
    if h % cap <= i then i - h % cap else i + cap - h % cap
  }

  lemma ModOnce(x: nat, cap: nat)
    requires cap > 0 && x < 2 * cap
    ensures x % cap == if x < cap then x else x - cap
  {
    if x < cap {
      assert x / cap == 0;
    } else {
      assert x == cap * 1 + (x - cap);
      assert x / cap == 1;
    }
  }

  lemma PosUnfold(h: nat, d: nat, cap: nat)
    requires d < cap
    ensures Pos(h, d, cap) == if h % cap + d < cap then h % cap + d else h % cap + d - cap
  {
    ModOnce(h % cap + d, cap);
  }

  /** Probe steps and slots determine each other within one lap. */
  lemma PosDist(h: nat, i: nat, cap: nat)
    requires i < cap
    ensures Pos(h, Dist(h, i, cap), cap) == i
  {
    PosUnfold(h, Dist(h, i, cap), cap);
  }

  lemma DistPos(h: nat, d: nat, cap: nat)
    requires d < cap
    ensures Dist(h, Pos(h, d, cap), cap) == d
  {
    PosUnfold(h, d, cap);
  }

  /** The masked step of the code: `i = (i + 1) & mask`. */
  lemma PosNext(h: nat, d: nat, cap: nat)
    requires d + 1 < cap
    ensures Pos(h, d + 1, cap) == (Pos(h, d, cap) + 1) % cap
  {
    PosUnfold(h, d, cap);
    PosUnfold(h, d + 1, cap);
    ModOnce(Pos(h, d, cap) + 1, cap);
  }

  // ----- well-formed tables ---------------------------------------------------

  ghost predicate HasKey<V>(t: Table<V>, i: int, key: string) {
    0 <= i < |t| && t[i].Some? && t[i].value.key == key
  }

  ghost predicate Hashed<V>(t: Table<V>, h: string -> nat) {
    forall i :: 0 <= i < |t| && t[i].Some? ==> t[i].value.hash == h(t[i].value.key)
  }

  /** Every entry is reached from its home slot without crossing a null slot. */
  ghost predicate Chained<V>(t: Table<V>) {
    forall i, d :: 0 <= i < |t| && t[i].Some? && 0 <= d < Dist(t[i].value.hash, i, |t|) ==>
      t[Pos(t[i].value.hash, d, |t|)].Some?
  }

  ghost predicate Unique<V>(t: Table<V>) {
    forall i, j :: 0 <= i < j < |t| && t[i].Some? && t[j].Some? ==> t[i].value.key != t[j].value.key
  }

  ghost predicate WellFormed<V>(t: Table<V>, h: string -> nat) {
    |t| > 0 && Hashed(t, h) && Chained(t) && Unique(t)
  }

  /** Slots that hold an entry, live or not. */
  function Used<V>(t: Table<V>): (n: nat)
    ensures n <= |t|
  {
    if t == [] then 0 else (if t[0].Some? then 1 else 0) + Used(t[1..])
  }

  /** Slots that hold a live entry. */
  function Live<V>(t: Table<V>): (n: nat)
    ensures n <= Used(t)
  {
    if t == [] then 0
    else (if t[0].Some? && t[0].value.value.Some? then 1 else 0) + Live(t[1..])
  }

  function EmptyTable<V>(cap: nat): (t: Table<V>)
    ensures |t| == cap && forall i :: 0 <= i < cap ==> t[i] == None
  {
    seq(cap, _ => None)
  }

  lemma {:induction false} EmptyUnused<V>(t: Table<V>)
    requires forall i :: 0 <= i < |t| ==> t[i] == None
    ensures Used(t) == 0
  {
    if t != [] { EmptyUnused(t[1..]); }
  }

  lemma {:induction false} UsedUpdate<V>(t: Table<V>, i: nat, c: Option<Entry<V>>)
    requires i < |t|
    ensures Used(t[i := c]) == Used(t) - (if t[i].Some? then 1 else 0) + (if c.Some? then 1 else 0)
    ensures Live(t[i := c]) == Live(t) - (if t[i].Some? && t[i].value.value.Some? then 1 else 0)
                                       + (if c.Some? && c.value.value.Some? then 1 else 0)
  {
    if i > 0 {
      assert t[i := c][1..] == t[1..][i - 1 := c];
      UsedUpdate(t[1..], i - 1, c);
    } else {
      assert t[i := c][1..] == t[1..];
    }
  }

  lemma {:induction false} LiveSplit<V>(t: Table<V>, n: nat)
    requires n < |t|
    ensures Live(t[..n + 1]) == Live(t[..n]) + (if t[n].Some? && t[n].value.value.Some? then 1 else 0)
    ensures Live(t[..n + 1]) <= Live(t)
  {
    if n == 0 {
      assert t[..0] == [] && t[..1][1..] == [];
    } else {
      assert t[..n + 1][1..] == t[1..][..n] && t[..n][1..] == t[1..][..n - 1];
      LiveSplit(t[1..], n - 1);
    }
  }

  /** A table that is not full has a null slot, so every probe ends. */
  lemma {:induction false} NullSlot<V>(t: Table<V>) returns (i: nat)
    requires Used(t) < |t|
    ensures i < |t| && t[i].None?
  {
    if t[0].None? {
      i := 0;
    } else {
      i := NullSlot(t[1..]);
      i := i + 1;
    }
  }

  /** The first d slots on the probe path of a key hold other keys. */
  ghost predicate Passed<V>(t: Table<V>, hash: nat, key: string, d: nat) {
    |t| > 0 &&
    forall c :: 0 <= c < d ==>
      t[Pos(hash, c, |t|)].Some? && t[Pos(hash, c, |t|)].value.key != key
  }

  /** A probe that passed d slots has not gone round: some slot is null. */
  lemma PassedWithinLap<V>(t: Table<V>, hash: nat, key: string, d: nat)
    requires Passed(t, hash, key, d) && Used(t) < |t|
    ensures d < |t|
  {
    var i := NullSlot(t);
    PosDist(hash, i, |t|);
    assert t[Pos(hash, Dist(hash, i, |t|), |t|)].None?;
  }

  /** A key whose probe path reaches a null slot is nowhere in the table. */
  lemma NullMeansAbsent<V>(t: Table<V>, h: string -> nat, key: string, d: nat)
    requires WellFormed(t, h) && d < |t|
    requires Passed(t, h(key), key, d) && t[Pos(h(key), d, |t|)].None?
    ensures forall i :: !HasKey(t, i, key)
  {
    forall i | 0 <= i < |t| && t[i].Some? ensures t[i].value.key != key {
      PosDist(h(key), i, |t|);
      assert t[Pos(h(key), Dist(h(key), i, |t|), |t|)] == t[i];
    }
  }

  /** Writing an absent key at the end of its probe path keeps the table well formed. */
  lemma PlaceKeepsWellFormed<V>(t: Table<V>, h: string -> nat, e: Entry<V>, d: nat)
    requires WellFormed(t, h) && d < |t| && e.hash == h(e.key)
    requires Passed(t, e.hash, e.key, d) && t[Pos(e.hash, d, |t|)].None?
    ensures WellFormed(t[Pos(e.hash, d, |t|) := Some(e)], h)
  {
    var p := Pos(e.hash, d, |t|);
    var t' := t[p := Some(e)];
    NullMeansAbsent(t, h, e.key, d);
    forall i, j | 0 <= i < j < |t'| && t'[i].Some? && t'[j].Some?
      ensures t'[i].value.key != t'[j].value.key
    {
      assert !HasKey(t, i, e.key) && !HasKey(t, j, e.key);
    }
    forall i, c | 0 <= i < |t'| && t'[i].Some? && 0 <= c < Dist(t'[i].value.hash, i, |t'|)
      ensures t'[Pos(t'[i].value.hash, c, |t'|)].Some?
    {
      if i == p {
        DistPos(e.hash, d, |t|);
        assert t[Pos(e.hash, c, |t|)].Some?;
      } else {
        assert t[Pos(t[i].value.hash, c, |t|)].Some?;
      }
    }
  }

  /** Rewriting the value of an entry, or tombstoning it, leaves the chains alone. */
  lemma RewriteKeepsWellFormed<V>(t: Table<V>, h: string -> nat, i: nat, v: Option<V>)
    requires WellFormed(t, h) && i < |t| && t[i].Some?
    ensures WellFormed(t[i := Some(t[i].value.(value := v))], h)
  {
    var t' := t[i := Some(t[i].value.(value := v))];
    forall j, c | 0 <= j < |t'| && t'[j].Some? && 0 <= c < Dist(t'[j].value.hash, j, |t'|)
      ensures t'[Pos(t'[j].value.hash, c, |t'|)].Some?
    {
      assert t[Pos(t[j].value.hash, c, |t|)].Some?;
    }
  }

  // ----- the finite map a table stands for --------------------------------------

  ghost predicate LiveAt<V>(t: Table<V>, i: int, key: string, v: V) {
    0 <= i < |t| && t[i].Some? && t[i].value.key == key && t[i].value.value == Some(v)
  }

  /** m holds exactly the live entries of t. */
  ghost predicate Represents<V>(t: Table<V>, m: map<string, V>) {
    && (forall i :: 0 <= i < |t| && t[i].Some? && t[i].value.value.Some? ==>
          t[i].value.key in m && m[t[i].value.key] == t[i].value.value.value)
    && (forall k :: k in m ==> exists i :: LiveAt(t, i, k, m[k]))
  }

  /** A table stands for at most one map. */
  lemma RepresentsUnique<V>(t: Table<V>, m: map<string, V>, n: map<string, V>)
    requires Represents(t, m) && Represents(t, n)
    ensures m == n
  {
    forall k | k in m ensures k in n && n[k] == m[k] {
      var i :| LiveAt(t, i, k, m[k]);
    }
    forall k | k in n ensures k in m {
      var i :| LiveAt(t, i, k, n[k]);
    }
  }

  /** Absent from the table means absent from the map. */
  lemma AbsentFromMap<V>(t: Table<V>, m: map<string, V>, key: string)
    requires Represents(t, m) && forall i :: !HasKey(t, i, key)
    ensures key !in m
  {
    assert forall i, v :: LiveAt(t, i, key, v) ==> HasKey(t, i, key);
  }

  /** The entry of a key decides whether, and with what, the map holds it. */
  lemma EntryDecides<V>(t: Table<V>, h: string -> nat, m: map<string, V>, i: nat)
    requires WellFormed(t, h) && Represents(t, m) && i < |t| && t[i].Some?
    ensures t[i].value.value.Some? <==> t[i].value.key in m
    ensures t[i].value.value.Some? ==> m[t[i].value.key] == t[i].value.value.value
  {
    var k := t[i].value.key;
    if k in m {
      var j :| LiveAt(t, j, k, m[k]);
    }
  }

  /** Writing one slot changes the map at that key alone. */
  lemma WriteRepresents<V>(t: Table<V>, h: string -> nat, m: map<string, V>, i: nat, e: Entry<V>)
    requires WellFormed(t, h) && Represents(t, m) && i < |t|
    requires forall j :: j != i ==> !HasKey(t, j, e.key)
    requires t[i].Some? ==> t[i].value.key == e.key
    ensures Represents(t[i := Some(e)], if e.value.Some? then m[e.key := e.value.value] else m - {e.key})
  {
    var t' := t[i := Some(e)];
    var m' := if e.value.Some? then m[e.key := e.value.value] else m - {e.key};
    forall j | 0 <= j < |t'| && t'[j].Some? && t'[j].value.value.Some?
      ensures t'[j].value.key in m' && m'[t'[j].value.key] == t'[j].value.value.value
    {
      assert j != i ==> !HasKey(t, j, e.key);
    }
    forall k | k in m' ensures exists j :: LiveAt(t', j, k, m'[k]) {
      if k == e.key {
        assert LiveAt(t', i, k, m'[k]);
      } else {
        var j :| LiveAt(t, j, k, m[k]);
        assert LiveAt(t', j, k, m'[k]);
      }
    }
  }

  /** The map of the remaining slots, once the first is taken away. */
  lemma SourceTail<V>(src: Table<V>, ms: map<string, V>) returns (ms': map<string, V>)
    requires src != [] && Unique(src) && Represents(src, ms)
    ensures Represents(src[1..], ms') && Unique(src[1..])
    ensures if src[0].Some? && src[0].value.value.Some?
            then ms' == ms - {src[0].value.key} && src[0].value.key in ms &&
                 ms[src[0].value.key] == src[0].value.value.value
            else ms' == ms
  {
    var rest := src[1..];
    ms' := if src[0].Some? && src[0].value.value.Some? then ms - {src[0].value.key} else ms;
    forall i | 0 <= i < |rest| ensures rest[i] == src[i + 1] {}
    forall k | k in ms' ensures exists i :: LiveAt(rest, i, k, ms'[k]) {
      var i :| LiveAt(src, i, k, ms[k]);
      assert LiveAt(rest, i - 1, k, ms'[k]);
    }
  }

  /** The live entries are as many as the keys of the map. */
  lemma {:induction false} LiveIsSize<V>(t: Table<V>, m: map<string, V>)
    requires Unique(t) && Represents(t, m)
    ensures Live(t) == |m|
    decreases |t|
  {
    if t == [] {
      assert forall i, k, v :: !LiveAt(t, i, k, v);
      assert m.Keys == {};
    } else {
      var m' := SourceTail(t, m);
      LiveIsSize(t[1..], m');
      if t[0].Some? && t[0].value.value.Some? {
        assert m.Keys == m'.Keys + {t[0].value.key};
        assert |m| == |m'| + 1;
      }
    }
  }

  // ----- rehashing ----------------------------------------------------------------

  /** The first null slot at or after d steps on the probe path, counted in
      steps; |t| if there is none within the lap. */
  function FreeDist<V>(t: Table<V>, hash: nat, d: nat): (r: nat)
    requires d <= |t|
    ensures d <= r <= |t|
    ensures r < |t| ==> t[Pos(hash, r, |t|)].None?
    ensures forall c :: d <= c < r ==> t[Pos(hash, c, |t|)].Some?
    decreases |t| - d
  {
    if d == |t| || t[Pos(hash, d, |t|)].None? then d else FreeDist(t, hash, d + 1)
  }

  /** Store an entry in the first null slot of its probe path. */
  function Put<V>(t: Table<V>, e: Entry<V>): (t': Table<V>)
    ensures |t'| == |t|
  {
    var d := FreeDist(t, e.hash, 0);
    if d < |t| then t[Pos(e.hash, d, |t|) := Some(e)] else t
  }

  /** Copy the live entries of src, slot by slot, into dst. */
  function Rehash<V>(src: Table<V>, dst: Table<V>): (t: Table<V>)
    ensures |t| == |dst|
    decreases |src|
  {
    if src == [] then dst
    else if src[0].Some? && src[0].value.value.Some? then Rehash(src[1..], Put(dst, src[0].value))
    else Rehash(src[1..], dst)
  }

  lemma PutCorrect<V>(t: Table<V>, h: string -> nat, m: map<string, V>, e: Entry<V>)
    requires WellFormed(t, h) && Used(t) < |t| && e.hash == h(e.key) && e.value.Some?
    requires Represents(t, m) && forall i :: !HasKey(t, i, e.key)
    ensures WellFormed(Put(t, e), h) && Used(Put(t, e)) == Used(t) + 1 && Live(Put(t, e)) == Live(t) + 1
    ensures Represents(Put(t, e), m[e.key := e.value.value])
    ensures forall i, k :: HasKey(Put(t, e), i, k) ==> HasKey(t, i, k) || k == e.key
  {
    var d := FreeDist(t, e.hash, 0);
    forall c | 0 <= c < d ensures t[Pos(e.hash, c, |t|)].value.key != e.key {
      assert !HasKey(t, Pos(e.hash, c, |t|), e.key);
    }
    PassedWithinLap(t, e.hash, e.key, d);
    var p := Pos(e.hash, d, |t|);
    UsedUpdate(t, p, Some(e));
    PlaceKeepsWellFormed(t, h, e, d);
    WriteRepresents(t, h, m, p, e);
  }

  ghost predicate NoSharedKey<V>(src: Table<V>, dst: Table<V>) {
    forall i, j, k :: HasKey(src, i, k) ==> !HasKey(dst, j, k)
  }

  lemma NoSharedKeyTail<V>(src: Table<V>, dst: Table<V>, dst': Table<V>)
    requires src != [] && Unique(src) && NoSharedKey(src, dst)
    requires forall i, k :: HasKey(dst', i, k) ==> HasKey(dst, i, k) || HasKey(src, 0, k)
    ensures NoSharedKey(src[1..], dst')
  {
    forall i, j, k | HasKey(src[1..], i, k) ensures !HasKey(dst', j, k) {
      assert HasKey(src, i + 1, k);
      assert !HasKey(src, 0, k);
    }
  }

  /** What copying one table into another relies on. */
  ghost predicate CanRehash<V>(src: Table<V>, dst: Table<V>, h: string -> nat,
                               ms: map<string, V>, md: map<string, V>)
  {
    && Hashed(src, h) && Unique(src) && Represents(src, ms)
    && WellFormed(dst, h) && Represents(dst, md)
    && Used(dst) + Live(src) < |dst|
    && NoSharedKey(src, dst)
  }

  lemma MoveKey<V>(md: map<string, V>, ms: map<string, V>, k: string)
    requires k in ms
    ensures md[k := ms[k]] + (ms - {k}) == md + ms
  {}

  /** Copying the first slot moves one key from the source to the target. */
  lemma RehashStep<V>(src: Table<V>, dst: Table<V>, h: string -> nat, ms: map<string, V>, md: map<string, V>)
    returns (dst': Table<V>, ms': map<string, V>, md': map<string, V>)
    requires src != [] && CanRehash(src, dst, h, ms, md)
    ensures CanRehash(src[1..], dst', h, ms', md')
    ensures md' + ms' == md + ms && |dst'| == |dst|
    ensures Rehash(src, dst) == Rehash(src[1..], dst')
    ensures Used(dst') + Live(src[1..]) == Used(dst) + Live(src)
  {
    ms' := SourceTail(src, ms);
    assert Hashed(src[1..], h);
    if src[0].Some? && src[0].value.value.Some? {
      var e := src[0].value;
      assert HasKey(src, 0, e.key);
      PutCorrect(dst, h, md, e);
      MoveKey(md, ms, e.key);
      dst', md' := Put(dst, e), md[e.key := e.value.value];
      NoSharedKeyTail(src, dst, dst');
    } else {
      dst', md' := dst, md;
      NoSharedKeyTail(src, dst, dst);
    }
  }

  /** Rehashing the live entries of src into a table with room for them keeps
      every chain unbroken and adds exactly the map that src stands for. */
  lemma {:induction false} RehashCorrect<V>(src: Table<V>, dst: Table<V>, h: string -> nat,
                                            ms: map<string, V>, md: map<string, V>)
    requires CanRehash(src, dst, h, ms, md)
    ensures WellFormed(Rehash(src, dst), h)
    ensures Used(Rehash(src, dst)) == Used(dst) + Live(src)
    ensures Represents(Rehash(src, dst), md + ms)
    decreases |src|
  {
    if src == [] {
      assert forall i, k, v :: !LiveAt(src, i, k, v);
      assert md + ms == md;
    } else {
      var dst', ms', md' := RehashStep(src, dst, h, ms, md);
      RehashCorrect(src[1..], dst', h, ms', md');
    }
  }

  /** A fresh table of at least eight slots, filled from another one. */
  lemma FreshRehash<V>(src: Table<V>, cap: nat, h: string -> nat, m: map<string, V>)
    requires WellFormed(src, h) && Represents(src, m) && Live(src) < cap
    ensures WellFormed(Rehash(src, EmptyTable<V>(cap)), h)
    ensures Used(Rehash(src, EmptyTable<V>(cap))) == Live(src)
    ensures Represents(Rehash(src, EmptyTable<V>(cap)), m)
  {
    var dst := EmptyTable<V>(cap);
    EmptyUnused(dst);
    assert Represents(dst, map[]);
    RehashCorrect(src, dst, h, m, map[]);
    assert map[] + m == m;
  }

  // ----- capacities ---------------------------------------------------------------

  /** The capacity after a growth. */
  function GrownCap(cap: nat): nat { NextPow2(cap * 2) }

  /** The capacity a compaction aims at. */
  function CompactCap(live: nat): (r: nat)
    ensures IsPow2(r) && r >= 8
  {
    var c := NextPow2(live * LOAD_DEN / LOAD_NUM + 1);
    if c < 8 then 8 else c
  }

  /** Growth doubles a power of two and leaves room: a table filled to its
      threshold is below the threshold of the grown one. */
  lemma GrowthLeavesRoom(cap: nat, live: nat)
    requires IsPow2(cap) && cap >= 8 && live <= Threshold(cap)
    ensures GrownCap(cap) == 2 * cap && IsPow2(2 * cap)
    ensures live < Threshold(GrownCap(cap)) < GrownCap(cap)
  {
    assert (2 * cap) / 2 == cap;
    NextPow2Fixed(2 * cap, 1);
  }

  /** Compaction keeps the live entries within the threshold of the new table. */
  lemma CompactionFits(live: nat)
    ensures live <= Threshold(CompactCap(live)) < CompactCap(live)
  {
    var q := live * LOAD_DEN / LOAD_NUM;
    assert 9 * q + 9 > 10 * live;
    var c := CompactCap(live);
    assert c >= q + 1;
    assert 9 * c > 10 * live || c == 8;
  }

  /** It is the least power of two, from 8 on, that is above ten ninths of the live entries. */
  lemma CompactCapLeast(live: nat, c: nat)
    requires IsPow2(c) && c >= 8 && c > live * 10 / 9
    ensures CompactCap(live) <= c
  {
    if c < CompactCap(live) {
      Pow2Step(CompactCap(live), c);
    }
  }
}
