/**
 * SCAN: a cursor that packs a shard and a slot, and the pages that following
 * it produces on a store that nothing changes.
 */
module Scan {
  import opened Bytes
  import opened Common
  import Glob

  type Key = seq<byte>

  datatype Entry = Entry(key: Key, expired: bool)

  type Shards = seq<seq<Option<Entry>>>

  const SHARD_LIMIT: nat := 4096
  const SLOT_LIMIT: nat := 0x10_0000

  // ------------------------------------------------------------ the cursor

  /** (shard << 20) | (slot & 0xF_FFFF) */
  function Pack(shard: nat, slot: nat): nat { shard * SLOT_LIMIT + slot % SLOT_LIMIT }

  /** ((cursor >> 20) & 0xFFF, cursor & 0xF_FFFF) */
  function Unpack(cursor: nat): (nat, nat) { (cursor / SLOT_LIMIT % SHARD_LIMIT, cursor % SLOT_LIMIT) }

  /** A position survives packing exactly when its parts fit their fields. */
  lemma UnpackIff(shard: nat, slot: nat)
    ensures Unpack(Pack(shard, slot)) == (shard, slot) <==> shard < SHARD_LIMIT && slot < SLOT_LIMIT
    ensures Unpack(Pack(shard, slot)) == (shard % SHARD_LIMIT, slot % SLOT_LIMIT)
    ensures Pack(shard, slot) == 0 <==> shard == 0 && slot % SLOT_LIMIT == 0
  {
    assert Pack(shard, slot) / SLOT_LIMIT == shard;
    assert Pack(shard, slot) % SLOT_LIMIT == slot % SLOT_LIMIT;
  }

  // ------------------------------------------------------- what is listed

  predicate Wanted(e: Entry, pattern: Option<Key>) {
    !e.expired && (pattern.None? || Glob.GlobResult(pattern.value, e.key))
  }

  function Hit(x: Option<Entry>, pattern: Option<Key>): seq<Key> {
    if x.Some? && Wanted(x.value, pattern) then [x.value.key] else []
  }

  function Hits(slots: seq<Option<Entry>>, pattern: Option<Key>): seq<Key> {
    if slots == [] then [] else Hit(slots[0], pattern) + Hits(slots[1..], pattern)
  }

  /** The live matching keys from shard i on. */
  function Listing(shards: Shards, pattern: Option<Key>, i: nat): seq<Key>
    decreases |shards| - i
  {
    if i >= |shards| then [] else Hits(shards[i], pattern) + Listing(shards, pattern, i + 1)
  }

  /** The live matching keys from a position on. */
  function Rest(shards: Shards, pattern: Option<Key>, i: nat, j: nat): seq<Key> {
    if i >= |shards| then []
    else if j >= |shards[i]| then Listing(shards, pattern, i + 1)
    else Hits(shards[i][j..], pattern) + Listing(shards, pattern, i + 1)
  }

  // -------------------------------------------------------------- one page

  datatype Page = Page(cursor: nat, keys: seq<Key>)

  /** The position after slot j of shard i. */
  function After(shards: Shards, i: nat, j: nat): (nat, nat)
    requires i < |shards|
  {
    if j + 1 >= |shards[i]| then (i + 1, 0) else (i, j + 1)
  }

  function CursorOf(shards: Shards, p: (nat, nat)): nat {
    if p.0 >= |shards| then 0 else Pack(p.0, p.1)
  }

  /** The page that starts at a position, after the keys already found. */
  function PageFrom(shards: Shards, pattern: Option<Key>, i: nat, j: nat, count: nat, acc: seq<Key>): Page
    decreases |shards| - i, if i < |shards| then |shards[i]| - j else 0
  {
    if i >= |shards| then Page(0, acc)
    else if j >= |shards[i]| then PageFrom(shards, pattern, i + 1, 0, count, acc)
    else
      var acc' := acc + Hit(shards[i][j], pattern);
      if |acc'| >= count then Page(CursorOf(shards, After(shards, i, j)), acc')
      else PageFrom(shards, pattern, i, j + 1, count, acc')
  }

  function ScanPage(shards: Shards, pattern: Option<Key>, cursor: nat, count: nat): Page {
    var p := if cursor == 0 then (0, 0) else Unpack(cursor);
    PageFrom(shards, pattern, p.0, p.1, count, [])
  }

  /** The key in a slot, if it is to be listed. */
  method Peek(x: Option<Entry>, pattern: Option<Key>) returns (found: seq<Key>)
    ensures found == Hit(x, pattern)
  {
    if x.None? || x.value.expired {
      return [];
    }
    if pattern.Some? {
      var matched := Glob.GlobMatch(pattern.value, x.value.key);
      if !matched {
        return [];
      }
    }
    return [x.value.key];
  }

  method Scan(shards: Shards, cursor: nat, pattern: Option<Key>, count: nat) returns (next: nat, keys: seq<Key>)
    ensures Page(next, keys) == ScanPage(shards, pattern, cursor, count)
  {
    keys := [];
    if |shards| == 0 {
      return 0, [];
    }
    var shard: nat, slot: nat := 0, 0;
    if cursor != 0 {
      var p := Unpack(cursor);
      shard, slot := p.0, p.1;
    }
    while shard < |shards|
      invariant PageFrom(shards, pattern, shard, slot, count, keys) == ScanPage(shards, pattern, cursor, count)
      decreases |shards| - shard
    {
      var len := |shards[shard]|;
      while slot < len
        invariant shard < |shards| && len == |shards[shard]|
        invariant PageFrom(shards, pattern, shard, slot, count, keys) == ScanPage(shards, pattern, cursor, count)
        decreases len - slot
      {
        var found := Peek(shards[shard][slot], pattern);
        keys := keys + found;
        slot := slot + 1;
        if |keys| >= count {
          if slot >= len {
            shard, slot := shard + 1, 0;
          }
          if shard >= |shards| {
            return 0, keys;
          }
          return Pack(shard, slot), keys;
        }
      }
      shard, slot := shard + 1, 0;
    }
    next := 0;
  }

  // ----------------------------------------------------- following the cursor

  /** The keys of the pages from a cursor until it is zero again; none if the counts run out first. */
  function Follow(shards: Shards, pattern: Option<Key>, counts: seq<nat>, cursor: nat): Option<seq<Key>>
    decreases |counts|
  {
    if counts == [] then None
    else
      var page := ScanPage(shards, pattern, cursor, counts[0]);
      if page.cursor == 0 then Some(page.keys)
      else
        match Follow(shards, pattern, counts[1..], page.cursor)
        case None => None
        case Some(more) => Some(page.keys + more)
  }

  predicate WithinLimits(shards: Shards) {
    |shards| <= SHARD_LIMIT && forall i :: 0 <= i < |shards| ==> |shards[i]| <= SLOT_LIMIT
  }

  /** How many slots lie ahead of a position. */
  function Ahead(shards: Shards, i: nat, j: nat): nat
    decreases |shards| - i
  {
    if i >= |shards| then 0
    else (if j >= |shards[i]| then 0 else |shards[i]| - j) + Ahead(shards, i + 1, 0)
  }

  /** Where a page that starts at a position stops. */
  function StopFrom(shards: Shards, pattern: Option<Key>, i: nat, j: nat, count: nat, found: nat): (nat, nat)
    decreases |shards| - i, if i < |shards| then |shards[i]| - j else 0
  {
    if i >= |shards| then (i, 0)
    else if j >= |shards[i]| then StopFrom(shards, pattern, i + 1, 0, count, found)
    else
      var found' := found + |Hit(shards[i][j], pattern)|;
      if found' >= count then After(shards, i, j)
      else StopFrom(shards, pattern, i, j + 1, count, found')
  }

  lemma RestStep(shards: Shards, pattern: Option<Key>, i: nat, j: nat)
    requires i < |shards| && j < |shards[i]|
    ensures Rest(shards, pattern, i, j) ==
            Hit(shards[i][j], pattern) + Rest(shards, pattern, After(shards, i, j).0, After(shards, i, j).1)
    ensures Rest(shards, pattern, i, j + 1) == Rest(shards, pattern, After(shards, i, j).0, After(shards, i, j).1)
  {
    HitsFrom(shards[i], pattern, j);
    Assoc(Hit(shards[i][j], pattern), Hits(shards[i][j + 1..], pattern), Listing(shards, pattern, i + 1));
    if j + 1 == |shards[i]| {
      RestStart(shards, pattern, i + 1);
      assert shards[i][j + 1..] == [] && [] + Listing(shards, pattern, i + 1) == Listing(shards, pattern, i + 1);
    }
  }

  lemma HitsFrom(slots: seq<Option<Entry>>, pattern: Option<Key>, j: nat)
    requires j < |slots|
    ensures Hits(slots[j..], pattern) == Hit(slots[j], pattern) + Hits(slots[j + 1..], pattern)
  {
    assert slots[j..][1..] == slots[j + 1..];
  }

  lemma RestStart(shards: Shards, pattern: Option<Key>, i: nat)
    ensures Rest(shards, pattern, i, 0) == Listing(shards, pattern, i)
  {
    if i < |shards| {
      assert shards[i][0..] == shards[i];
      if |shards[i]| == 0 {
        assert Hits(shards[i], pattern) == [];
      }
    }
  }

  lemma RestAfter(shards: Shards, pattern: Option<Key>, i: nat, j: nat, acc: seq<Key>)
    requires i < |shards| && j < |shards[i]|
    ensures var p := After(shards, i, j);
            acc + Rest(shards, pattern, i, j) == acc + Hit(shards[i][j], pattern) + Rest(shards, pattern, i, j + 1) ==
            acc + Hit(shards[i][j], pattern) + Rest(shards, pattern, p.0, p.1)
  {
    RestStep(shards, pattern, i, j);
    Assoc(acc, Hit(shards[i][j], pattern), Rest(shards, pattern, i, j + 1));
  }

  lemma {:induction false} PageStops(shards: Shards, pattern: Option<Key>, i: nat, j: nat, count: nat, acc: seq<Key>)
    ensures PageFrom(shards, pattern, i, j, count, acc).cursor ==
            CursorOf(shards, StopFrom(shards, pattern, i, j, count, |acc|))
    decreases |shards| - i, if i < |shards| then |shards[i]| - j else 0
  {
    if i < |shards| {
      if j >= |shards[i]| {
        PageStops(shards, pattern, i + 1, 0, count, acc);
      } else {
        var acc' := acc + Hit(shards[i][j], pattern);
        if |acc'| < count {
          PageStops(shards, pattern, i, j + 1, count, acc');
        }
      }
    }
  }

  /** One slot of a page: it stops behind the slot or goes on from there. */
  lemma PageStep(shards: Shards, pattern: Option<Key>, i: nat, j: nat, count: nat, acc: seq<Key>)
    requires i < |shards| && j < |shards[i]|
    ensures var acc' := acc + Hit(shards[i][j], pattern);
            if |acc'| >= count
            then PageFrom(shards, pattern, i, j, count, acc).keys == acc' &&
                 StopFrom(shards, pattern, i, j, count, |acc|) == After(shards, i, j)
            else PageFrom(shards, pattern, i, j, count, acc) == PageFrom(shards, pattern, i, j + 1, count, acc') &&
                 StopFrom(shards, pattern, i, j, count, |acc|) == StopFrom(shards, pattern, i, j + 1, count, |acc'|)
  {
  }

  /** A page and what lies after its stop are what lay ahead of its start. */
  lemma {:induction false} PageSound(shards: Shards, pattern: Option<Key>, i: nat, j: nat, count: nat, acc: seq<Key>)
    ensures var stop := StopFrom(shards, pattern, i, j, count, |acc|);
            PageFrom(shards, pattern, i, j, count, acc).keys + Rest(shards, pattern, stop.0, stop.1) ==
            acc + Rest(shards, pattern, i, j)
    decreases |shards| - i, if i < |shards| then |shards[i]| - j else 0
  {
    if i < |shards| {
      if j >= |shards[i]| {
        PageSound(shards, pattern, i + 1, 0, count, acc);
        RestStart(shards, pattern, i + 1);
      } else {
        var acc' := acc + Hit(shards[i][j], pattern);
        PageStep(shards, pattern, i, j, count, acc);
        RestAfter(shards, pattern, i, j, acc);
        if |acc'| < count {
          PageSound(shards, pattern, i, j + 1, count, acc');
        }
      }
    }
  }

  lemma {:induction false} PageFull(shards: Shards, pattern: Option<Key>, i: nat, j: nat, count: nat, acc: seq<Key>)
    requires |acc| < count
    ensures var page := PageFrom(shards, pattern, i, j, count, acc);
            |page.keys| <= count && (page.cursor != 0 ==> |page.keys| == count)
    decreases |shards| - i, if i < |shards| then |shards[i]| - j else 0
  {
    if i < |shards| {
      if j >= |shards[i]| {
        PageFull(shards, pattern, i + 1, 0, count, acc);
      } else {
        var acc' := acc + Hit(shards[i][j], pattern);
        if |acc'| < count {
          PageFull(shards, pattern, i, j + 1, count, acc');
        }
      }
    }
  }

  /** A page that is not the last has exactly as many keys as were asked for, and no page has more. */
  lemma PageSize(shards: Shards, pattern: Option<Key>, cursor: nat, count: nat)
    requires count > 0
    ensures var page := ScanPage(shards, pattern, cursor, count);
            |page.keys| <= count && (page.cursor != 0 ==> |page.keys| == count)
  {
    var p := if cursor == 0 then (0, 0) else Unpack(cursor);
    PageFull(shards, pattern, p.0, p.1, count, []);
  }

  /** Asked for no keys, it looks at one slot. */
  lemma {:induction false} EmptyPage(shards: Shards, pattern: Option<Key>, i: nat, j: nat)
    requires i < |shards| && j < |shards[i]|
    ensures PageFrom(shards, pattern, i, j, 0, []).keys == Hit(shards[i][j], pattern)
  {
    assert [] + Hit(shards[i][j], pattern) == Hit(shards[i][j], pattern);
  }

  /** A page passes at least one slot, and stops on a slot or at the end. */
  lemma {:induction false} PageProgress(shards: Shards, pattern: Option<Key>, i: nat, j: nat, count: nat, found: nat)
    ensures var stop := StopFrom(shards, pattern, i, j, count, found);
            && Ahead(shards, stop.0, stop.1) <= Ahead(shards, i, j)
            && (stop.0 < |shards| ==> Ahead(shards, stop.0, stop.1) < Ahead(shards, i, j))
            && (stop.0 < |shards| ==> stop.1 == 0 || stop.1 < |shards[stop.0]|)
            && (stop.0 >= |shards| ==> Ahead(shards, stop.0, stop.1) == 0)
            && (stop.0 > i || (stop.0 == i && stop.1 > j) || stop.0 >= |shards|)
    decreases |shards| - i, if i < |shards| then |shards[i]| - j else 0
  {
    if i < |shards| {
      if j >= |shards[i]| {
        PageProgress(shards, pattern, i + 1, 0, count, found);
      } else {
        var found' := found + |Hit(shards[i][j], pattern)|;
        if found' < count {
          PageProgress(shards, pattern, i, j + 1, count, found');
        }
      }
    }
  }

  /** Following from any position that the cursor can hold lists what lies ahead. */
  lemma {:induction false} FollowFrom(shards: Shards, pattern: Option<Key>, counts: seq<nat>, i: nat, j: nat)
    requires WithinLimits(shards) && i < |shards| && (j == 0 || j < |shards[i]|)
    ensures var r := Follow(shards, pattern, counts, Pack(i, j));
            (r.Some? ==> r.value == Rest(shards, pattern, i, j)) && (|counts| > Ahead(shards, i, j) ==> r.Some?)
    decreases |counts|
  {
    if counts != [] {
      UnpackIff(i, j);
      var count := counts[0];
      var stop := StopFrom(shards, pattern, i, j, count, 0);
      PageStops(shards, pattern, i, j, count, []);
      PageSound(shards, pattern, i, j, count, []);
      PageProgress(shards, pattern, i, j, count, 0);
      var page := PageFrom(shards, pattern, i, j, count, []);
      assert ScanPage(shards, pattern, Pack(i, j), count) == page;
      assert [] + Rest(shards, pattern, i, j) == Rest(shards, pattern, i, j);
      if stop.0 < |shards| {
        UnpackIff(stop.0, stop.1);
        FollowFrom(shards, pattern, counts[1..], stop.0, stop.1);
      } else {
        assert page.keys + [] == page.keys;
      }
    }
  }

  /**
   * From cursor 0 back to cursor 0, with any counts, SCAN lists every live
   * matching key exactly once, in slot order, and never needs more calls
   * than there are slots and one more.
   */
  lemma ScanComplete(shards: Shards, pattern: Option<Key>, counts: seq<nat>)
    requires WithinLimits(shards) && |counts| > Ahead(shards, 0, 0)
    ensures Follow(shards, pattern, counts, 0) == Some(Listing(shards, pattern, 0))
  {
    if shards != [] {
      FollowFrom(shards, pattern, counts, 0, 0);
      RestStart(shards, pattern, 0);
    }
  }

  // ---------------------------------------- the listing is the key set

  predicate ListedAt(shards: Shards, pattern: Option<Key>, i: nat, j: nat, k: Key) {
    && i < |shards| && j < |shards[i]| && shards[i][j].Some?
    && shards[i][j].value.key == k && !shards[i][j].value.expired
    && (pattern.None? || Glob.GlobResult(pattern.value, k))
  }

  lemma {:induction false} HitsMembers(slots: seq<Option<Entry>>, pattern: Option<Key>, k: Key)
    ensures k in Hits(slots, pattern) <==>
            exists j :: 0 <= j < |slots| && slots[j].Some? && Wanted(slots[j].value, pattern) && slots[j].value.key == k
  {
    if slots != [] {
      var rest := slots[1..];
      HitsMembers(rest, pattern, k);
      assert forall j :: 0 <= j < |rest| ==> rest[j] == slots[j + 1];
      if exists j :: 0 < j < |slots| && slots[j].Some? && Wanted(slots[j].value, pattern) && slots[j].value.key == k {
        var j :| 0 < j < |slots| && slots[j].Some? && Wanted(slots[j].value, pattern) && slots[j].value.key == k;
        assert rest[j - 1] == slots[j];
      }
    }
  }

  /** A key is listed exactly when some slot holds it, live and matching. */
  lemma {:induction false} ListingMembers(shards: Shards, pattern: Option<Key>, from: nat, k: Key)
    ensures k in Listing(shards, pattern, from) <==> exists i, j :: from <= i && ListedAt(shards, pattern, i, j, k)
    decreases |shards| - from
  {
    if from < |shards| {
      HitsMembers(shards[from], pattern, k);
      ListingMembers(shards, pattern, from + 1, k);
      if k in Hits(shards[from], pattern) {
        var j :| 0 <= j < |shards[from]| && shards[from][j].Some? && Wanted(shards[from][j].value, pattern) &&
                 shards[from][j].value.key == k;
        assert ListedAt(shards, pattern, from, j, k);
      }
    }
  }

  predicate Unique(xs: seq<Key>) { forall a, b :: 0 <= a < b < |xs| ==> xs[a] != xs[b] }

  predicate Holds(shards: Shards, i: nat, j: nat, k: Key) {
    i < |shards| && j < |shards[i]| && shards[i][j].Some? && shards[i][j].value.key == k
  }

  /** No key is stored in two slots. */
  ghost predicate StoredOnce(shards: Shards) {
    forall i, j, i', j', k :: Holds(shards, i, j, k) && Holds(shards, i', j', k) ==> i == i' && j == j'
  }

  lemma UniqueConcat(a: seq<Key>, b: seq<Key>)
    requires Unique(a) && Unique(b) && forall k :: k in a ==> k !in b
    ensures Unique(a + b)
  {
    var c := a + b;
    forall x, y | 0 <= x < y < |c| ensures c[x] != c[y] {
      if x < |a| <= y {
        assert c[x] == a[x] && c[y] == b[y - |a|] && a[x] in a && b[y - |a|] in b;
      }
    }
  }

  lemma {:induction false} HitsUnique(slots: seq<Option<Entry>>, pattern: Option<Key>)
    requires forall j, j' :: 0 <= j < j' < |slots| && slots[j].Some? && slots[j'].Some? ==>
                               slots[j].value.key != slots[j'].value.key
    ensures Unique(Hits(slots, pattern))
  {
    if slots != [] {
      HitsUnique(slots[1..], pattern);
      forall k | k in Hit(slots[0], pattern) ensures k !in Hits(slots[1..], pattern) {
        HitsMembers(slots[1..], pattern, k);
      }
      UniqueConcat(Hit(slots[0], pattern), Hits(slots[1..], pattern));
    }
  }

  /** A store that holds each key once lists each key once. */
  lemma {:induction false} ListingUnique(shards: Shards, pattern: Option<Key>, from: nat)
    requires StoredOnce(shards)
    ensures Unique(Listing(shards, pattern, from))
    decreases |shards| - from
  {
    if from < |shards| {
      forall j, j' | 0 <= j < j' < |shards[from]| && shards[from][j].Some? && shards[from][j'].Some?
        ensures shards[from][j].value.key != shards[from][j'].value.key
      {
        assert Holds(shards, from, j, shards[from][j].value.key);
        assert Holds(shards, from, j', shards[from][j'].value.key);
      }
      HitsUnique(shards[from], pattern);
      ListingUnique(shards, pattern, from + 1);
      forall k | k in Hits(shards[from], pattern) ensures k !in Listing(shards, pattern, from + 1) {
        HitsMembers(shards[from], pattern, k);
        ListingMembers(shards, pattern, from + 1, k);
        var j :| 0 <= j < |shards[from]| && shards[from][j].Some? && shards[from][j].value.key == k;
        assert Holds(shards, from, j, k);
        assert forall i', j' :: ListedAt(shards, pattern, i', j', k) ==> Holds(shards, i', j', k);
      }
      UniqueConcat(Hits(shards[from], pattern), Listing(shards, pattern, from + 1));
    }
  }

  // ---------------------------------------------- beyond the limits

  /** The store with the given shard sizes and keys, all live, at the chosen slots. */
  function Filled(lens: seq<nat>, at: (nat, nat) -> Option<Key>): Shards {
    seq(|lens|, i requires 0 <= i < |lens| =>
      seq(lens[i], j requires 0 <= j < lens[i] =>
        match at(i, j) { case None => None case Some(k) => Some(Entry(k, false)) }))
  }

  predicate Before(i: nat, j: nat, i': nat, j': nat) { i < i' || (i == i' && j < j') }

  /** A page over empty slots starts where the first key is. */
  lemma {:induction false} SkipEmpty(shards: Shards, i: nat, j: nat, i': nat, j': nat)
    requires i' < |shards| && j' < |shards[i']| && !Before(i', j', i, j)
    requires forall x, y :: 0 <= x < |shards| && 0 <= y < |shards[x]| && !Before(x, y, i, j) && Before(x, y, i', j') ==>
                              shards[x][y].None?
    ensures PageFrom(shards, None, i, j, 1, []) == PageFrom(shards, None, i', j', 1, [])
    decreases |shards| - i, if i < |shards| then |shards[i]| - j else 0
  {
    if (i, j) != (i', j') {
      if j >= |shards[i]| {
        SkipEmpty(shards, i + 1, 0, i', j');
      } else {
        assert shards[i][j].None?;
        assert [] + Hit(shards[i][j], None) == [];
        SkipEmpty(shards, i, j + 1, i', j');
      }
    }
  }

  predicate Ones(counts: seq<nat>) { forall i :: 0 <= i < |counts| ==> counts[i] == 1 }

  /** When the cursor after the only key leads back to it, following never ends. */
  lemma {:induction false} GoesRound(shards: Shards, i: nat, j: nat, k: Key, counts: seq<nat>, cursor: nat)
    requires i < |shards| && j < |shards[i]| && shards[i][j] == Some(Entry(k, false))
    requires forall x, y :: 0 <= x < |shards| && 0 <= y < |shards[x]| && Before(x, y, i, j) ==> shards[x][y].None?
    requires var c := CursorOf(shards, After(shards, i, j));
             c != 0 && !Before(i, j, Unpack(c).0, Unpack(c).1) && (cursor == c || cursor == 0)
    requires Ones(counts)
    ensures Follow(shards, None, counts, cursor).None?
    decreases |counts|
  {
    if counts != [] {
      var p := if cursor == 0 then (0, 0) else Unpack(cursor);
      SkipEmpty(shards, p.0, p.1, i, j);
      assert [] + Hit(shards[i][j], None) == [k];
      GoesRound(shards, i, j, k, counts[1..], CursorOf(shards, After(shards, i, j)));
    }
  }

  /** Following lists everything, whatever a store with these shard sizes holds. */
  ghost predicate Reliable(lens: seq<nat>) {
    forall shards: Shards, pattern, counts ::
      |shards| == |lens| && (forall i :: 0 <= i < |lens| ==> |shards[i]| == lens[i]) &&
      |counts| > Ahead(shards, 0, 0) ==>
        Follow(shards, pattern, counts, 0) == Some(Listing(shards, pattern, 0))
  }

  /** One key at a slot after which the packed cursor leads back: following never gets past it. */
  lemma RoundTable(lens: seq<nat>, i: nat, j: nat)
    requires i < |lens| && j < lens[i]
    requires var next := if j + 1 >= lens[i] then (i + 1, 0) else (i, j + 1);
             next.0 < |lens| && Pack(next.0, next.1) != 0 &&
             var back := Unpack(Pack(next.0, next.1));
             !Before(i, j, back.0, back.1)
    ensures !Reliable(lens)
  {
    var shards := Filled(lens, (x, y) => if x == i && y == j then Some([]) else None);
    var counts := seq(Ahead(shards, 0, 0) + 1, _ => 1);
    GoesRound(shards, i, j, [], counts, 0);
  }

  /** Slot 2^20 of the first shard packs to cursor 0, which ends the listing too early. */
  lemma EndsEarly(lens: seq<nat>)
    requires |lens| > 0 && lens[0] > SLOT_LIMIT
    ensures !Reliable(lens)
  {
    var shards := Filled(lens, (x, y) => if x != 0 then None
                                         else if y == SLOT_LIMIT - 1 then Some([0])
                                         else if y == SLOT_LIMIT then Some([1])
                                         else None);
    var counts := seq(Ahead(shards, 0, 0) + 1, _ => 1);
    SkipEmpty(shards, 0, 0, 0, SLOT_LIMIT - 1);
    assert [] + Hit(shards[0][SLOT_LIMIT - 1], None) == [[0]];
    UnpackIff(0, SLOT_LIMIT);
    assert Follow(shards, None, counts, 0) == Some([[0]]);
    assert ListedAt(shards, None, 0, SLOT_LIMIT, [1]);
    ListingMembers(shards, None, 0, [1]);
  }

  /** SCAN is reliable exactly up to 4096 shards of 2^20 slots. */
  lemma ReliableIff(lens: seq<nat>)
    requires forall i :: 0 <= i < |lens| ==> lens[i] > 0
    ensures Reliable(lens) <==> |lens| <= SHARD_LIMIT && forall i :: 0 <= i < |lens| ==> lens[i] <= SLOT_LIMIT
  {
    if |lens| > SHARD_LIMIT {
      UnpackIff(SHARD_LIMIT, 0);
      RoundTable(lens, SHARD_LIMIT - 1, lens[SHARD_LIMIT - 1] - 1);
    } else if exists i :: 0 <= i < |lens| && lens[i] > SLOT_LIMIT {
      var i :| 0 <= i < |lens| && lens[i] > SLOT_LIMIT;
      if i == 0 {
        EndsEarly(lens);
      } else {
        UnpackIff(i, SLOT_LIMIT);
        RoundTable(lens, i, SLOT_LIMIT - 1);
      }
    } else {
      forall shards: Shards, pattern, counts |
        |shards| == |lens| && (forall i :: 0 <= i < |lens| ==> |shards[i]| == lens[i]) && |counts| > Ahead(shards, 0, 0)
        ensures Follow(shards, pattern, counts, 0) == Some(Listing(shards, pattern, 0))
      {
        ScanComplete(shards, pattern, counts);
      }
    }
  }
}
