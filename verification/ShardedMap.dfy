/** The sequential behaviour of the hash map: shards of open-addressing tables
    that grow, compact and tombstone in place, against one finite map. */
module ShardedMap {
  import opened Common
  import opened Probe

  /** The keys of the live entries in slots [lo, hi) that f rejects. */
  ghost function Rejected<V>(t: Table<V>, f: (string, V) -> bool, lo: nat, hi: nat): set<string>
    requires lo <= hi <= |t|
  {
    set i | lo <= i < hi && t[i].Some? && t[i].value.value.Some? && !f(t[i].value.key, t[i].value.value.value)
      :: t[i].value.key
  }

  lemma RejectedNext<V>(t: Table<V>, f: (string, V) -> bool, lo: nat, i: nat)
    requires lo <= i < |t| && Unique(t)
    ensures var hit := t[i].Some? && t[i].value.value.Some? && !f(t[i].value.key, t[i].value.value.value);
            if hit then t[i].value.key !in Rejected(t, f, lo, i) &&
                        Rejected(t, f, lo, i + 1) == Rejected(t, f, lo, i) + {t[i].value.key}
            else Rejected(t, f, lo, i + 1) == Rejected(t, f, lo, i)
  {}

  lemma RejectedNone<V>(t: Table<V>, f: (string, V) -> bool, lo: nat, m: map<string, V>)
    requires lo <= |t|
    ensures |Rejected(t, f, lo, lo)| == 0 && m == m - Rejected(t, f, lo, lo)
  {
    assert Rejected(t, f, lo, lo) == {};
  }

  /** One slot further: the map loses at most the key of that slot. */
  lemma RejectedStep<V>(t: Table<V>, f: (string, V) -> bool, lo: nat, i: nat, m: map<string, V>, now: map<string, V>,
                        hit: bool, now': map<string, V>)
    requires lo <= i < |t| && Unique(t)
    requires now == m - Rejected(t, f, lo, i)
    requires hit == (t[i].Some? && t[i].value.value.Some? && !f(t[i].value.key, t[i].value.value.value))
    requires hit ==> t[i].value.key in now
    requires now' == if hit then now - {t[i].value.key} else now
    ensures now' == m - Rejected(t, f, lo, i + 1)
    ensures |Rejected(t, f, lo, i + 1)| == |Rejected(t, f, lo, i)| + if hit then 1 else 0
  {
    RejectedNext(t, f, lo, i);
  }

  lemma RejectedKeys<V>(t: Table<V>, m: map<string, V>, f: (string, V) -> bool, lo: nat, hi: nat)
    requires Represents(t, m) && lo <= hi <= |t|
    ensures Rejected(t, f, lo, hi) <= m.Keys
  {}

  /** Over a whole table, f rejects exactly the pairs of the map it rejects. */
  lemma RejectedAll<V>(t: Table<V>, m: map<string, V>, f: (string, V) -> bool)
    requires Represents(t, m)
    ensures forall k :: k in Rejected(t, f, 0, |t|) <==> k in m && !f(k, m[k])
  {
    forall k | k in m && !f(k, m[k]) ensures k in Rejected(t, f, 0, |t|) {
      var i :| LiveAt(t, i, k, m[k]);
    }
  }

  /** One shard: `slots` is the current table, replaced on growth. */
  class Shard<V> {
    const h: string -> nat
    var slots: array<Option<Entry<V>>>
    var len: nat
    ghost var Contents: map<string, V>

    ghost predicate Valid()
      reads this, slots
    {
      && IsPow2(slots.Length) && slots.Length >= 8
      && WellFormed(slots[..], h)
      && Represents(slots[..], Contents)
      && Used(slots[..]) == len <= Threshold(slots.Length)
    }

    constructor (h: string -> nat, cap: nat)
      ensures Valid() && fresh(slots) && this.h == h && Contents == map[]
    {
      this.h := h;
      var c := NextPow2(cap);
      c := if c < 8 then 8 else c;
      slots := new Option<Entry<V>>[c](_ => None);
      len := 0;
      Contents := map[];
      new;
      assert slots[..] == EmptyTable<V>(c);
      EmptyUnused(slots[..]);
    }

    /** The probe: the slot where the path of the key ends, at the key itself
        or at the first null slot. */
    method Seek(key: string) returns (i: nat, ghost d: nat)
      requires Valid()
      ensures d < slots.Length && i == Pos(h(key), d, slots.Length)
      ensures Passed(slots[..], h(key), key, d)
      ensures slots[i].None? || slots[i].value.key == key
    {
      var cap := slots.Length;
      ghost var t := slots[..];
      d := 0;
      i := Pos(h(key), 0, cap);
      while slots[i].Some? && !(slots[i].value.hash == h(key) && slots[i].value.key == key)
        invariant d < cap && i == Pos(h(key), d, cap)
        invariant Passed(t, h(key), key, d)
        decreases cap - d
      {
        assert Passed(t, h(key), key, d + 1);
        PassedWithinLap(t, h(key), key, d + 1);
        PosNext(h(key), d, cap);
        i := (i + 1) % cap;
        d := d + 1;
      }
    }

    /** `find`: the slot of the key, or none. */
    method Find(key: string) returns (r: Option<nat>)
      requires Valid()
      ensures r.None? ==> forall i :: !HasKey(slots[..], i, key)
      ensures r.Some? ==> HasKey(slots[..], r.value, key)
    {
      ghost var d;
      var i: nat;
      i, d := Seek(key);
      if slots[i].None? {
        NullMeansAbsent(slots[..], h, key, d);
        r := None;
      } else {
        r := Some(i);
      }
    }

    /** Rewrite the entry in slot i. */
    method Write(i: nat, v: Option<V>)
      requires Valid() && i < slots.Length && slots[i].Some?
      modifies this`Contents, slots
      ensures Valid() && slots == old(slots)
      ensures slots[..] == old(slots[..])[i := Some(old(slots[i]).value.(value := v))]
      ensures Contents == var k := old(slots[i]).value.key;
                          if v.Some? then old(Contents)[k := v.value] else old(Contents) - {k}
    {
      ghost var t := slots[..];
      ghost var k := slots[i].value.key;
      RewriteKeepsWellFormed(t, h, i, v);
      WriteRepresents(t, h, Contents, i, t[i].value.(value := v));
      UsedUpdate(t, i, Some(t[i].value.(value := v)));
      slots[i] := Some(slots[i].value.(value := v));
      Contents := if v.Some? then Contents[k := v.value] else Contents - {k};
      assert slots[..] == t[i := Some(t[i].value.(value := v))];
    }

    /** Take the null slot i at the end of the path of an absent key. */
    method Place(i: nat, key: string, value: V, ghost d: nat)
      requires Valid() && len < Threshold(slots.Length) && d < slots.Length
      requires i == Pos(h(key), d, slots.Length) && slots[i].None? && Passed(slots[..], h(key), key, d)
      modifies this`Contents, this`len, slots
      ensures Valid() && slots == old(slots)
      ensures Contents == old(Contents)[key := value]
    {
      ghost var t := slots[..];
      var e := Entry(h(key), key, Some(value));
      NullMeansAbsent(t, h, key, d);
      PlaceKeepsWellFormed(t, h, e, d);
      WriteRepresents(t, h, Contents, i, e);
      UsedUpdate(t, i, Some(e));
      slots[i] := Some(e);
      len := len + 1;
      Contents := Contents[key := value];
      assert slots[..] == t[i := Some(e)];
    }

    /** Copy the live entries into a fresh table and make it current. */
    method RehashInto(cap: nat)
      requires Valid() && IsPow2(cap) && cap >= 8 && Live(slots[..]) <= Threshold(cap)
      modifies this
      ensures Valid() && fresh(slots) && slots.Length == cap
      ensures slots[..] == Rehash(old(slots[..]), EmptyTable<V>(cap))
      ensures len == old(Live(slots[..])) && Contents == old(Contents)
    {
      FreshRehash(slots[..], cap, h, Contents);
      var table, live := CopyLive(slots, cap);
      len := live;
      slots := table;
    }

    /** `grow_locked`: double the table if it is at its threshold. */
    method Grow()
      requires Valid()
      modifies this
      ensures Valid() && Contents == old(Contents)
      ensures len < Threshold(slots.Length)
      ensures if old(len) < Threshold(old(slots.Length)) then slots == old(slots) && len == old(len)
              else fresh(slots) && slots.Length == 2 * old(slots.Length) && len == |Contents|
    {
      LiveIsSize(slots[..], Contents);
      if len < Threshold(slots.Length) {
        return;
      }
      GrowthLeavesRoom(slots.Length, Live(slots[..]));
      RehashInto(GrownCap(slots.Length));
    }

    /** `insert_new`. A sequential call grows the table at most once. */
    method InsertNew(key: string, value: V) returns (isNew: bool, ghost growths: nat)
      requires Valid()
      modifies this, slots
      ensures Valid() && (slots == old(slots) || fresh(slots))
      ensures Contents == old(Contents)[key := value] && isNew == (key !in old(Contents))
      ensures growths <= 1
    {
      growths := 0;
      while len >= Threshold(slots.Length)
        invariant Valid() && Contents == old(Contents) && (slots == old(slots) || fresh(slots))
        invariant growths <= if len >= Threshold(slots.Length) then 0 else 1
        decreases if len >= Threshold(slots.Length) then 1 else 0
      {
        Grow();
        growths := growths + 1;
      }
      isNew := Upsert(key, value);
    }

    /** The probe of `insert_new` on a table with room. */
    method Upsert(key: string, value: V) returns (isNew: bool)
      requires Valid() && len < Threshold(slots.Length)
      modifies this`Contents, this`len, slots
      ensures Valid() && slots == old(slots)
      ensures Contents == old(Contents)[key := value] && isNew == (key !in old(Contents))
    {
      ghost var d;
      var i: nat;
      i, d := Seek(key);
      if slots[i].Some? {
        EntryDecides(slots[..], h, Contents, i);
        isNew := slots[i].value.value.None?;
        Write(i, Some(value));
      } else {
        NullMeansAbsent(slots[..], h, key, d);
        AbsentFromMap(slots[..], Contents, key);
        isNew := true;
        Place(i, key, value, d);
      }
    }

    /** `insert_hashed`: overwrite, revive a tombstone, or insert. */
    method InsertHashed(key: string, value: V) returns (isNew: bool)
      requires Valid()
      modifies this, slots
      ensures Valid() && (slots == old(slots) || fresh(slots))
      ensures Contents == old(Contents)[key := value] && isNew == (key !in old(Contents))
    {
      var at := Find(key);
      if at.Some? {
        EntryDecides(slots[..], h, Contents, at.value);
        if slots[at.value].value.value.Some? {
          Write(at.value, Some(value));
          return false;
        }
        Write(at.value, Some(value));
        return true;
      }
      ghost var growths;
      isNew, growths := InsertNew(key, value);
    }

    /** The shard part of `insert_if_absent`. */
    method InsertIfAbsent(key: string, value: V) returns (isNew: bool)
      requires Valid()
      modifies this, slots
      ensures Valid() && (slots == old(slots) || fresh(slots))
      ensures isNew == (key !in old(Contents))
      ensures Contents == if isNew then old(Contents)[key := value] else old(Contents)
    {
      var at := Find(key);
      if at.Some? {
        EntryDecides(slots[..], h, Contents, at.value);
        isNew := slots[at.value].value.value.None?;
        if isNew {
          Write(at.value, Some(value));
        }
      } else {
        AbsentFromMap(slots[..], Contents, key);
        ghost var growths;
        isNew, growths := InsertNew(key, value);
      }
    }

    /** `get`: the value of a live entry. */
    method Get(key: string) returns (r: Option<V>)
      requires Valid()
      ensures r == if key in Contents then Some(Contents[key]) else None
    {
      var at := Find(key);
      if at.Some? {
        EntryDecides(slots[..], h, Contents, at.value);
        r := slots[at.value].value.value;
      } else {
        AbsentFromMap(slots[..], Contents, key);
        r := None;
      }
    }

    /** `remove`: tombstone a live entry and return its value. */
    method Remove(key: string) returns (r: Option<V>)
      requires Valid()
      modifies this`Contents, slots
      ensures Valid() && slots == old(slots)
      ensures Contents == old(Contents) - {key}
      ensures r == if key in old(Contents) then Some(old(Contents)[key]) else None
    {
      var at := Find(key);
      if at.Some? {
        EntryDecides(slots[..], h, Contents, at.value);
        r := slots[at.value].value.value;
        if r.Some? {
          Write(at.value, None);
        }
      } else {
        AbsentFromMap(slots[..], Contents, key);
        r := None;
      }
    }

    /** Tombstone slot i if f rejects what it holds. */
    method RetainSlot(i: nat, f: (string, V) -> bool) returns (hit: bool)
      requires Valid() && i < slots.Length
      modifies this`Contents, slots
      ensures Valid() && slots == old(slots)
      ensures slots[..i] == old(slots[..i]) && slots[i + 1..] == old(slots[i + 1..])
      ensures var e := old(slots[i]);
              && hit == (e.Some? && e.value.value.Some? && !f(e.value.key, e.value.value.value))
              && (hit ==> e.value.key in old(Contents))
              && Contents == if hit then old(Contents) - {e.value.key} else old(Contents)
    {
      hit := false;
      if slots[i].Some? && slots[i].value.value.Some? {
        EntryDecides(slots[..], h, Contents, i);
        hit := !f(slots[i].value.key, slots[i].value.value.value);
        if hit {
          ghost var t := slots[..];
          Write(i, None);
          assert slots[..i] == slots[..][..i] == t[..i] && slots[i + 1..] == slots[..][i + 1..] == t[i + 1..];
        }
      }
    }

    /** `retain_shard_range`: tombstone what f rejects in a range of slots. */
    method RetainRange(start: nat, max: nat, f: (string, V) -> bool)
      returns (end: nat, capacity: nat, removed: nat)
      requires Valid()
      modifies this`Contents, slots
      ensures Valid() && slots == old(slots) && capacity == slots.Length
      ensures end == (if start + max < capacity then start + max else capacity)
      ensures var gone := Rejected(old(slots[..]), f, if start < end then start else end, end);
              Contents == old(Contents) - gone && removed == |gone| && gone <= old(Contents).Keys
    {
      capacity := slots.Length;
      var first := if start < capacity then start else capacity;
      end := if first + max < capacity then first + max else capacity;
      RejectedKeys(slots[..], Contents, f, first, end);
      removed := RetainSlots(first, end, f);
    }

    method RetainSlots(first: nat, end: nat, f: (string, V) -> bool) returns (removed: nat)
      requires Valid() && first <= end <= slots.Length
      modifies this`Contents, slots
      ensures Valid() && slots == old(slots)
      ensures var gone := Rejected(old(slots[..]), f, first, end);
              Contents == old(Contents) - gone && removed == |gone|
    {
      removed := 0;
      ghost var t, m := slots[..], Contents;
      ghost var gone := Rejected(t, f, first, first);
      RejectedNone(t, f, first, m);
      var i := first;
      while i < end
        invariant first <= i <= end && Valid() && slots == old(slots)
        invariant slots[i..] == t[i..]
        invariant gone == Rejected(t, f, first, i) && removed == |gone| && Contents == m - gone
      {
        ghost var now, e := Contents, slots[i];
        assert e == slots[i..][0] == t[i];
        var hit := RetainSlot(i, f);
        RejectedStep(t, f, first, i, m, now, hit, Contents);
        gone := Rejected(t, f, first, i + 1);
        removed := if hit then removed + 1 else removed;
        i := i + 1;
        assert slots[i..] == t[i - 1..][1..];
      }
    }

    /** `compact_shard`: rehash into a smaller table when one suffices. */
    method Compact()
      requires Valid()
      modifies this
      ensures Valid() && Contents == old(Contents)
      ensures if CompactCap(|Contents|) < old(slots.Length)
              then fresh(slots) && slots.Length == CompactCap(|Contents|) && len == |Contents|
              else slots == old(slots) && len == old(len)
    {
      LiveIsSize(slots[..], Contents);
      var live := CountLive(slots);
      var cap := CompactCap(live);
      if cap < slots.Length {
        CompactionFits(live);
        RehashInto(cap);
      }
    }

    /** The shard part of `clear`. */
    method Clear()
      modifies this
      ensures Valid() && fresh(slots) && Contents == map[] && len == 0
    {
      slots := new Option<Entry<V>>[8](_ => None);
      len := 0;
      Contents := map[];
      assert slots[..] == EmptyTable<V>(8);
      EmptyUnused(slots[..]);
    }

    /** `try_update`: f sees the live value and may replace it. */
    method TryUpdate<R>(key: string, f: V -> Option<(V, R)>) returns (r: Option<R>)
      requires Valid()
      modifies this`Contents, slots
      ensures Valid() && slots == old(slots)
      ensures if key in old(Contents) && f(old(Contents)[key]).Some?
              then var (v, x) := f(old(Contents)[key]).value;
                   Contents == old(Contents)[key := v] && r == Some(x)
              else Contents == old(Contents) && r == None
    {
      r := None;
      var at := Find(key);
      if at.Some? {
        EntryDecides(slots[..], h, Contents, at.value);
        if slots[at.value].value.value.Some? {
          var out := f(slots[at.value].value.value.value);
          if out.Some? {
            Write(at.value, Some(out.value.0));
            r := Some(out.value.1);
          }
        }
      } else {
        AbsentFromMap(slots[..], Contents, key);
      }
    }
  }

  method CountLive<V>(src: array<Option<Entry<V>>>) returns (live: nat)
    ensures live == Live(src[..])
  {
    live := 0;
    var k := 0;
    ghost var t := src[..];
    while k < src.Length
      invariant 0 <= k <= src.Length && live == Live(t[..k])
    {
      LiveSplit(t, k);
      if src[k].Some? && src[k].value.value.Some? {
        live := live + 1;
      }
      k := k + 1;
    }
    assert t[..k] == t;
  }

  /** Store an entry in the first null slot of its path in the new table. */
  method PutInto<V>(table: array<Option<Entry<V>>>, e: Entry<V>)
    modifies table
    ensures table[..] == Put(old(table[..]), e)
  {
    var cap := table.Length;
    ghost var t := table[..];
    if cap == 0 { return; }
    var d: nat := 0;
    var i := Pos(e.hash, 0, cap);
    while d < cap && table[i].Some?
      invariant d <= cap && table[..] == t
      invariant d < cap ==> i == Pos(e.hash, d, cap)
      invariant i < cap
      invariant FreeDist(t, e.hash, d) == FreeDist(t, e.hash, 0)
      decreases cap - d
    {
      if d + 1 < cap { PosNext(e.hash, d, cap); }
      i := (i + 1) % cap;
      d := d + 1;
    }
    if d < cap {
      table[i] := Some(e);
      assert table[..] == t[i := Some(e)];
    }
  }

  /** The copying loop of `grow_locked` and `compact_shard`. */
  method CopyLive<V>(src: array<Option<Entry<V>>>, cap: nat) returns (table: array<Option<Entry<V>>>, live: nat)
    ensures fresh(table) && table.Length == cap
    ensures table[..] == Rehash(src[..], EmptyTable<V>(cap)) && live == Live(src[..])
  {
    ghost var was := src[..];
    table := new Option<Entry<V>>[cap](_ => None);
    assert table[..] == EmptyTable<V>(cap);
    live := 0;
    var k := 0;
    assert was[0..] == was;
    while k < src.Length
      invariant 0 <= k <= src.Length && src[..] == was
      invariant Rehash(was[k..], table[..]) == Rehash(was, EmptyTable<V>(cap))
      invariant live == Live(was[..k])
    {
      LiveSplit(was, k);
      assert was[k..][1..] == was[k + 1..];
      if src[k].Some? && src[k].value.value.Some? {
        live := live + 1;
        PutInto(table, src[k].value);
      }
      k := k + 1;
    }
    assert was[..k] == was && was[k..] == [];
  }

  /** The map with one key bound, or unbound. */
  ghost function Bind<V>(m: map<string, V>, key: string, v: Option<V>): map<string, V> {
    if v.Some? then m[key := v.value] else m - {key}
  }

  lemma BindSize<V>(m: map<string, V>, key: string, v: V)
    ensures |m[key := v]| == |m| + if key in m then 0 else 1
  {
    var m' := m[key := v];
    assert m'.Keys == m.Keys + {key};
    assert |m'| == |m'.Keys| && |m| == |m.Keys|;
  }

  lemma UnbindSize<V>(m: map<string, V>, key: string)
    ensures |m - {key}| == |m| - if key in m then 1 else 0
  {
    var m' := m - {key};
    assert m'.Keys == m.Keys - {key};
    assert |m'| == |m'.Keys| && |m| == |m.Keys|;
  }

  lemma MinusSize<V>(m: map<string, V>, gone: set<string>)
    requires gone <= m.Keys
    ensures |m - gone| == |m| - |gone|
  {
    assert (m - gone).Keys == m.Keys - gone;
    assert |m - gone| == |(m - gone).Keys| && |m| == |m.Keys|;
  }

  /** `try_insert` and `try_set` refuse a new key at capacity. */
  datatype Capacity = Accepted(isNew: bool) | Refused

  /** The map: a key lives in the shard its hash selects. `keyCount` is kept
      beside the shards; `Contents` is the finite map they stand for together. */
  class CustomMap<V> {
    const h: string -> nat
    const shiftDivisor: nat        // 2 to the power of the shard shift
    const shards: seq<Shard<V>>
    const maxKeys: nat
    var keyCount: nat
    ghost var Contents: map<string, V>
    ghost var Repr: set<object>

    /** `locate`: the shard of a key. */
    function ShardOf(key: string): (i: nat)
      requires |shards| > 0 && shiftDivisor > 0
      ensures i < |shards|
    {
      (h(key) / shiftDivisor) % |shards|
    }

    /** The shards are separate objects on separate tables. */
    ghost predicate Separate()
      reads this, Repr
    {
      && |shards| > 0 && shiftDivisor > 0 && this in Repr
      && (forall i :: 0 <= i < |shards| ==> shards[i] in Repr && shards[i].slots in Repr)
      && forall i, j :: 0 <= i < j < |shards| ==>
           shards[i] != shards[j] && shards[i].slots != shards[j].slots
    }

    /** `part` holds exactly the pairs of `whole` that belong to shard i. */
    ghost predicate PartOf(part: map<string, V>, whole: map<string, V>, i: nat)
      requires |shards| > 0 && shiftDivisor > 0
    {
      && (forall k :: k in part ==> ShardOf(k) == i && k in whole && whole[k] == part[k])
      && (forall k :: k in whole && ShardOf(k) == i ==> k in part)
    }

    ghost predicate Agrees(i: nat)
      requires i < |shards| && shiftDivisor > 0
      reads this, shards[i]
    {
      shards[i].h == h && PartOf(shards[i].Contents, Contents, i)
    }

    lemma BindPart(part: map<string, V>, whole: map<string, V>, key: string, v: Option<V>)
      requires |shards| > 0 && shiftDivisor > 0 && PartOf(part, whole, ShardOf(key))
      ensures PartOf(Bind(part, key, v), Bind(whole, key, v), ShardOf(key))
    {}

    ghost predicate Valid()
      reads this, Repr
    {
      && Separate()
      && (forall i :: 0 <= i < |shards| ==> shards[i].Valid() && Agrees(i))
      && keyCount == |Contents|
    }

    lemma MinusPart(part: map<string, V>, whole: map<string, V>, gone: set<string>, i: nat)
      requires |shards| > 0 && shiftDivisor > 0 && PartOf(part, whole, i) && gone <= part.Keys
      ensures PartOf(part - gone, whole - gone, i) && gone <= whole.Keys && |whole - gone| == |whole| - |gone|
      ensures forall k :: ShardOf(k) != i ==> (k in whole - gone <==> k in whole)
    {
      MinusSize(whole, gone);
    }

    constructor (h: string -> nat, shiftDivisor: nat, n: nat, cap: nat, maxKeys: nat)
      requires n > 0 && shiftDivisor > 0
      ensures Valid() && fresh(Repr) && Contents == map[]
      ensures this.maxKeys == maxKeys && |shards| == n
    {
      var made: seq<Shard<V>> := [];
      ghost var parts: set<object> := {};
      while |made| < n
        invariant |made| <= n && fresh(parts)
        invariant forall s <- made :: s.Valid() && s.h == h && s.Contents == map[] && s in parts && s.slots in parts
        invariant forall i, j :: 0 <= i < j < |made| ==> made[i] != made[j] && made[i].slots != made[j].slots
      {
        var s := new Shard<V>(h, cap);
        made := made + [s];
        parts := parts + {s, s.slots};
      }
      this.h := h;
      this.shiftDivisor := shiftDivisor;
      this.shards := made;
      this.maxKeys := maxKeys;
      this.keyCount := 0;
      this.Contents := map[];
      this.Repr := parts + {this};
    }

    /** A call on shard idx leaves the other shards sound. */
    twostate lemma OthersKept(idx: nat)
      requires old(Valid()) && idx < |shards|
      requires Repr == old(Repr) + {shards[idx].slots}
      requires shards[idx].slots == old(shards[idx].slots) || fresh(shards[idx].slots)
      requires forall i :: 0 <= i < |shards| && i != idx ==>
                 unchanged(shards[i]) && unchanged(old(shards[i].slots))
      requires forall k :: ShardOf(k) != idx ==>
                 (k in Contents <==> k in old(Contents)) && (k in Contents ==> Contents[k] == old(Contents)[k])
      ensures Separate()
      ensures forall i :: 0 <= i < |shards| && i != idx ==> shards[i].Valid() && Agrees(i)
    {
      forall i | 0 <= i < |shards| && i != idx ensures shards[i].Valid() && Agrees(i) {
        assert old(shards[i].Valid() && Agrees(i));
      }
    }

    /** A key is bound in the map as it is in its shard. */
    lemma SameBinding(key: string)
      requires Valid()
      ensures key in Contents <==> key in shards[ShardOf(key)].Contents
      ensures key in Contents ==> Contents[key] == shards[ShardOf(key)].Contents[key]
    {
      assert Agrees(ShardOf(key));
    }

    /** `insert`. */
    method Insert(key: string, value: V) returns (isNew: bool)
      requires Valid()
      modifies Repr
      ensures Valid() && fresh(Repr - old(Repr)) && Contents == old(Contents)[key := value]
      ensures isNew == (key !in old(Contents))
    {
      var idx := ShardOf(key);
      SameBinding(key);
      ghost var part := shards[idx].Contents;
      isNew := shards[idx].InsertHashed(key, value);
      Repr := Repr + {shards[idx].slots};
      BindSize(Contents, key, value);
      BindPart(part, Contents, key, Some(value));
      Contents := Contents[key := value];
      keyCount := if isNew then keyCount + 1 else keyCount;
      OthersKept(idx);
    }

    /** `try_insert`: at capacity only an existing key may be written, so keys
        added this way never exceed `maxKeys`. */
    method TryInsert(key: string, value: V) returns (r: Capacity)
      requires Valid()
      modifies Repr
      ensures Valid() && fresh(Repr - old(Repr))
      ensures r.Refused? <==> |old(Contents)| >= maxKeys && key !in old(Contents)
      ensures r.Refused? ==> Contents == old(Contents)
      ensures r.Accepted? ==> Contents == old(Contents)[key := value] && r.isNew == (key !in old(Contents))
      ensures |old(Contents)| <= maxKeys ==> |Contents| <= maxKeys
    {
      BindSize(Contents, key, value);
      if keyCount >= maxKeys {
        var v := Get(key);
        if v.None? {
          return Refused;
        }
      }
      var isNew := Insert(key, value);
      r := Accepted(isNew);
    }

    /** `get`. */
    method Get(key: string) returns (r: Option<V>)
      requires Valid()
      ensures r == if key in Contents then Some(Contents[key]) else None
    {
      SameBinding(key);
      r := shards[ShardOf(key)].Get(key);
    }

    /** `insert_if_absent`. */
    method InsertIfAbsent(key: string, value: V) returns (isNew: bool)
      requires Valid()
      modifies Repr
      ensures Valid() && fresh(Repr - old(Repr))
      ensures isNew == (key !in old(Contents))
      ensures Contents == if isNew then old(Contents)[key := value] else old(Contents)
    {
      var idx := ShardOf(key);
      SameBinding(key);
      ghost var part := shards[idx].Contents;
      isNew := shards[idx].InsertIfAbsent(key, value);
      Repr := Repr + {shards[idx].slots};
      BindSize(Contents, key, value);
      BindPart(part, Contents, key, Some(value));
      if isNew {
        Contents := Contents[key := value];
        keyCount := keyCount + 1;
      }
      OthersKept(idx);
    }

    /** `remove`, `remove_no_clone` and `remove_with`. */
    method Remove(key: string) returns (r: Option<V>)
      requires Valid()
      modifies Repr
      ensures Valid() && Repr == old(Repr) && Contents == old(Contents) - {key}
      ensures r == if key in old(Contents) then Some(old(Contents)[key]) else None
    {
      var idx := ShardOf(key);
      SameBinding(key);
      ghost var part := shards[idx].Contents;
      r := shards[idx].Remove(key);
      UnbindSize(Contents, key);
      BindPart(part, Contents, key, None);
      Contents := Contents - {key};
      keyCount := if r.Some? then keyCount - 1 else keyCount;
      OthersKept(idx);
    }

    /** `update`, `try_update` and `update_with`. */
    method TryUpdate<R>(key: string, f: V -> Option<(V, R)>) returns (r: Option<R>)
      requires Valid()
      modifies Repr
      ensures Valid() && Repr == old(Repr)
      ensures if key in old(Contents) && f(old(Contents)[key]).Some?
              then var (v, x) := f(old(Contents)[key]).value;
                   Contents == old(Contents)[key := v] && r == Some(x)
              else Contents == old(Contents) && r == None
    {
      var idx := ShardOf(key);
      SameBinding(key);
      ghost var part := shards[idx].Contents;
      r := shards[idx].TryUpdate(key, f);
      if key in Contents && f(Contents[key]).Some? {
        ghost var v := f(Contents[key]).value.0;
        BindSize(Contents, key, v);
        BindPart(part, Contents, key, Some(v));
        Contents := Contents[key := v];
      }
      OthersKept(idx);
    }

    /** `compact_shard`: no effect on the map; an index out of range is ignored. */
    method CompactShard(idx: nat)
      requires Valid()
      modifies Repr
      ensures Valid() && fresh(Repr - old(Repr)) && Contents == old(Contents)
    {
      if idx >= |shards| {
        return;
      }
      assert Agrees(idx);
      shards[idx].Compact();
      Repr := Repr + {shards[idx].slots};
      OthersKept(idx);
    }

    /** A range of slots of one existing shard: what f rejects there is gone. */
    method RetainIn(idx: nat, start: nat, max: nat, f: (string, V) -> bool) returns (end: nat, capacity: nat)
      requires Valid() && idx < |shards|
      modifies Repr
      ensures Valid() && Repr == old(Repr)
      ensures forall s <- shards :: s.slots == old(s.slots)
      ensures capacity == shards[idx].slots.Length && end == (if start + max < capacity then start + max else capacity)
      ensures Contents ==
              old(Contents) - Rejected(old(shards[idx].slots[..]), f, if start < end then start else end, end)
    {
      assert Agrees(idx);
      ghost var part, t := shards[idx].Contents, shards[idx].slots[..];
      var removed: nat;
      end, capacity, removed := shards[idx].RetainRange(start, max, f);
      ghost var gone := Rejected(t, f, if start < end then start else end, end);
      MinusPart(part, Contents, gone, idx);
      assert Repr == Repr + {shards[idx].slots};
      Contents := Contents - gone;
      keyCount := keyCount - removed;
      OthersKept(idx);
    }

    /** `retain_shard_range`: tombstone what f rejects in a range of slots of one shard. */
    method RetainShardRange(idx: nat, start: nat, max: nat, f: (string, V) -> bool)
      returns (r: Option<(nat, nat)>)
      requires Valid()
      modifies Repr
      ensures Valid() && Repr == old(Repr)
      ensures forall s <- shards :: s.slots == old(s.slots)
      ensures r.None? <==> idx >= |shards|
      ensures r.None? ==> Contents == old(Contents)
      ensures r.Some? ==>
        && r.value.1 == shards[idx].slots.Length
        && r.value.0 == (if start + max < r.value.1 then start + max else r.value.1)
        && Contents == old(Contents) -
             Rejected(old(shards[idx].slots[..]), f, if start < r.value.0 then start else r.value.0, r.value.0)
    {
      if idx >= |shards| {
        return None;
      }
      var end, capacity := RetainIn(idx, start, max, f);
      r := Some((end, capacity));
    }

    /** `retain`: the map keeps exactly the pairs f accepts. */
    method Retain(f: (string, V) -> bool)
      requires Valid()
      modifies Repr
      ensures Valid() && Repr == old(Repr)
      ensures Contents == map k | k in old(Contents) && f(k, old(Contents)[k]) :: old(Contents)[k]
    {
      ghost var m := Contents;
      var i := 0;
      while i < |shards|
        invariant 0 <= i <= |shards| && Valid() && Repr == old(Repr)
        invariant forall k :: k in Contents <==> k in m && (ShardOf(k) >= i || f(k, m[k]))
        invariant forall k :: k in Contents ==> Contents[k] == m[k]
      {
        assert Agrees(i);
        RejectedAll(shards[i].slots[..], shards[i].Contents, f);
        var r := RetainShardRange(i, 0, shards[i].slots.Length, f);
        i := i + 1;
      }
    }

    ghost predicate Sound()
      reads this, Repr
    {
      Separate() && forall j :: 0 <= j < |shards| ==> shards[j].Valid() && shards[j].h == h
    }

    /** A fresh table in shard idx leaves the other shards as they were. */
    twostate lemma SoundKept(idx: nat)
      requires old(Sound()) && idx < |shards|
      requires Repr == old(Repr) + {shards[idx].slots} && fresh(shards[idx].slots) && shards[idx].Valid()
      requires forall i :: 0 <= i < |shards| && i != idx ==>
                 unchanged(shards[i]) && unchanged(old(shards[i].slots))
      ensures Sound()
    {
      forall i | 0 <= i < |shards| && i != idx ensures shards[i].Valid() {
        assert old(shards[i].Valid());
      }
    }

    /** `clear`: every shard gets an empty table, then the count is reset. */
    method Clear()
      requires Valid()
      modifies Repr
      ensures Valid() && fresh(Repr - old(Repr)) && Contents == map[] && keyCount == 0
    {
      var i := 0;
      while i < |shards|
        invariant 0 <= i <= |shards| && Sound() && fresh(Repr - old(Repr))
        invariant forall j :: 0 <= j < i ==> shards[j].Contents == map[]
      {
        label before:
        shards[i].Clear();
        Repr := Repr + {shards[i].slots};
        SoundKept@before(i);
        i := i + 1;
      }
      Contents := map[];
      keyCount := 0;
    }
  }
}
