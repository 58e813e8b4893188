/**
 * Saving and loading snapshots: the record loop over the format of
 * RdbFormat, the writer and the reader with their cursors, and what a
 * restored store holds.
 */
module Rdb {
  import opened Bytes
  import opened Common
  import opened RdbFormat

  const MAGIC: Str := [70, 76, 68, 66]
  const VERSION: byte := 2

  // ------------------------------------------------------- the record loop

  datatype Next = Done | Broken | Skipped(rest: Str) | Loaded(record: Record, rest: Str)

  predicate Expired(ttl: nat, now: nat) { ttl != 0 && ttl <= now }

  /** What the loop does with the bytes ahead. */
  function ReadNext(s: Str, now: nat): (r: Next)
    ensures r.Skipped? || r.Loaded? ==> |r.rest| < |s|
  {
    if s == [] || s[0] == TYPE_EOF then Done
    else
      match ReadInt(s[1..], 8)
      case Fail => Broken
      case Ok(ttl, r) =>
        match ReadStr(r)
        case Fail => Broken
        case Ok(key, r') =>
          if Expired(ttl, now) then
            match SkipBody(s[0], r')
            case None => Broken
            case Some(r'') => SkipShrinks(s[0], r'); Skipped(r'')
          else
            match ReadBody(s[0], r')
            case Fail => Broken
            case Ok(body, r'') =>
              SkipAgreesWithRead(s[0], r');
              SkipShrinks(s[0], r');
              Loaded(Record(key, ttl, body), r'')
  }

  lemma {:induction false} SkipManyShrinks(skip: Str -> Option<Str>, s: Str, n: nat)
    requires forall x :: skip(x).Some? ==> |skip(x).value| <= |x|
    ensures SkipMany(skip, s, n).Some? ==> |SkipMany(skip, s, n).value| <= |s|
    decreases n
  {
    if n > 0 && skip(s).Some? {
      SkipManyShrinks(skip, skip(s).value, n - 1);
    }
  }

  lemma SkipEntryShrinks(s: Str)
    ensures SkipEntry(s).Some? ==> |SkipEntry(s).value| <= |s|
  {
    if SkipEntry(s).Some? {
      SkipManyShrinks(SkipPair, s[8..][8..][4..], FromLittleEndian(s[8..][8..][..4]));
    }
  }

  lemma SkipShrinks(tag: byte, s: Str)
    ensures SkipBody(tag, s).Some? ==> |SkipBody(tag, s).value| <= |s|
  {
    if |s| >= 4 {
      var n := FromLittleEndian(s[..4]);
      SkipManyShrinks(SkipStr, s[4..], n);
      SkipManyShrinks(SkipPair, s[4..], n);
      SkipManyShrinks(SkipScore, s[4..], n);
      forall x ensures SkipEntry(x).Some? ==> |SkipEntry(x).value| <= |x| {
        SkipEntryShrinks(x);
      }
      SkipManyShrinks(SkipEntry, s[4..], n);
    }
  }

  datatype Loading = Loading(records: seq<Record>, ok: bool)

  /** The records inserted, in order, and whether the load ends without an error. */
  function LoadAll(s: Str, now: nat): Loading
    decreases |s|
  {
    match ReadNext(s, now)
    case Done => Loading([], true)
    case Broken => Loading([], false)
    case Skipped(rest) => LoadAll(rest, now)
    case Loaded(record, rest) =>
      var l := LoadAll(rest, now);
      Loading([record] + l.records, l.ok)
  }

  function EncAll(rs: seq<Record>): Str { EncMany(EncRecord, rs) }

  /** The records that a load at the given time keeps. */
  function Unexpired(rs: seq<Record>, now: nat): seq<Record> {
    if rs == [] then []
    else if Expired(rs[0].ttl, now) then Unexpired(rs[1..], now)
    else [rs[0]] + Unexpired(rs[1..], now)
  }

  // -------------------------------------------------------- one record

  /** A load at the given time accepts the record. */
  predicate Acceptable(r: Record, now: nat) {
    LoadableStr(r.key) && (Expired(r.ttl, now) || LoadableBody(r.body))
  }

  /** A written record is kept, passed over, or refused, as its limits and expiry say. */
  lemma NextEncoded(r: Record, rest: Str, now: nat)
    requires Writable(r)
    ensures ReadNext(EncRecord(r) + rest, now) ==
            if !Acceptable(r, now) then Broken
            else if Expired(r.ttl, now) then Skipped(rest)
            else Loaded(r, rest)
  {
    HeadEncoded(Tag(r.body), r.ttl, r.key, EncBody(r.body), rest);
    BodyEncoded(r.body, rest);
    assert ReadsBack(r.body, rest) && SkipsOver(r.body, rest);
  }

  lemma HeadEncoded(tag: byte, ttl: nat, key: Str, body: Str, rest: Str)
    requires ttl < U64 && WritableStr(key)
    ensures var s := [tag] + (LittleEndian(ttl, 8) + (EncStr(key) + body)) + rest;
            s[0] == tag && ReadInt(s[1..], 8) == Ok(ttl, EncStr(key) + (body + rest))
    ensures ReadStr(EncStr(key) + (body + rest)) == if LoadableStr(key) then Ok(key, body + rest) else Fail
  {
    var a, b := LittleEndian(ttl, 8), EncStr(key);
    var s := [tag] + (a + (b + body)) + rest;
    assert s[1..] == a + (b + (body + rest));
    Powers();
    IntEncoded(ttl, 8, b + (body + rest));
    StrEncoded(key, body + rest);
  }

  function Followed(n: Next, t: Str): Next {
    match n
    case Skipped(rest) => Skipped(rest + t)
    case Loaded(record, rest) => Loaded(record, rest + t)
    case _ => n
  }

  /** The head of a record, time and key, reads the same with more after it. */
  lemma HeadStable(s: Str, t: Str)
    requires |s| >= 8 && ReadStr(s[8..]).Ok?
    ensures ReadInt(s + t, 8) == Ok(FromLittleEndian(s[..8]), s[8..] + t)
    ensures ReadStr(s[8..] + t) == Ok(ReadStr(s[8..]).value, ReadStr(s[8..]).rest + t)
  {
    IntStable(s, t, 8);
    StrStable();
  }

  lemma NextStable(s: Str, t: Str, now: nat)
    requires ReadNext(s, now).Skipped? || ReadNext(s, now).Loaded?
    ensures ReadNext(s + t, now) == Followed(ReadNext(s, now), t)
  {
    assert (s + t)[1..] == s[1..] + t;
    HeadStable(s[1..], t);
    var rest := ReadStr(s[1..][8..]).rest;
    if ReadNext(s, now).Skipped? {
      BodySkipStable(s[0], rest, t);
    } else {
      BodyStable(s[0], rest, t);
    }
  }

  lemma FollowedLeftover(n: Next, t: Str)
    requires t != []
    ensures n.Skipped? ==> Followed(n, t) != Skipped([])
    ensures n.Loaded? ==> forall r :: Followed(n, t) != Loaded(r, [])
  {
    if n.Skipped? || n.Loaded? {
      assert |n.rest + t| > 0;
    }
  }

  /** A record cut short is an error, unless nothing of it is left. */
  lemma NextTruncated(r: Record, k: nat, now: nat)
    requires Writable(r) && Acceptable(r, now) && k < |EncRecord(r)|
    ensures ReadNext(EncRecord(r)[..k], now) == if k == 0 then Done else Broken
  {
    var s, t := EncRecord(r)[..k], EncRecord(r)[k..];
    assert s + t == EncRecord(r) == EncRecord(r) + [];
    NextEncoded(r, [], now);
    var n := ReadNext(s, now);
    FollowedLeftover(n, t);
    if n.Skipped? || n.Loaded? {
      NextStable(s, t, now);
    }
    if k > 0 {
      assert s[0] == Tag(r.body);
    }
  }

  // --------------------------------------------------------- whole files

  lemma {:induction false} LoadAfter(rs: seq<Record>, rest: Str, now: nat)
    requires forall i :: 0 <= i < |rs| ==> Writable(rs[i]) && Acceptable(rs[i], now)
    ensures LoadAll(EncAll(rs) + rest, now) ==
            Loading(Unexpired(rs, now) + LoadAll(rest, now).records, LoadAll(rest, now).ok)
  {
    if rs == [] {
      assert EncAll(rs) + rest == rest;
      assert [] + LoadAll(rest, now).records == LoadAll(rest, now).records;
    } else {
      Assoc(EncRecord(rs[0]), EncAll(rs[1..]), rest);
      NextEncoded(rs[0], EncAll(rs[1..]) + rest, now);
      LoadAfter(rs[1..], rest, now);
      Regroup(rs[0], Unexpired(rs[1..], now), LoadAll(rest, now).records);
    }
  }

  lemma Regroup(r: Record, a: seq<Record>, b: seq<Record>)
    ensures [r] + (a + b) == [r] + a + b
  {
  }

  /** A complete file yields exactly the records that have not expired, in order. */
  lemma RoundTrip(rs: seq<Record>, junk: Str, now: nat)
    requires forall i :: 0 <= i < |rs| ==> Writable(rs[i]) && Acceptable(rs[i], now)
    ensures LoadAll(EncAll(rs) + ([TYPE_EOF] + junk), now) == Loading(Unexpired(rs, now), true)
  {
    LoadAfter(rs, [TYPE_EOF] + junk, now);
    assert Unexpired(rs, now) + [] == Unexpired(rs, now);
  }

  /**
   * A file cut k bytes into a record yields what the whole records before
   * the cut yield, and an error exactly when the cut is inside a record.
   */
  lemma Truncated(rs: seq<Record>, next: Record, k: nat, now: nat)
    requires forall i :: 0 <= i < |rs| ==> Writable(rs[i]) && Acceptable(rs[i], now)
    requires Writable(next) && Acceptable(next, now) && k < |EncRecord(next)|
    ensures LoadAll(EncAll(rs) + EncRecord(next)[..k], now) == Loading(Unexpired(rs, now), k == 0)
  {
    LoadAfter(rs, EncRecord(next)[..k], now);
    NextTruncated(next, k, now);
    assert Unexpired(rs, now) + [] == Unexpired(rs, now);
  }

  /** How many items lie wholly within the first k bytes. */
  function WholeWithin<T>(enc: T -> Str, xs: seq<T>, k: nat): (j: nat)
    ensures j <= |xs|
  {
    if xs == [] || k < |enc(xs[0])| then 0
    else 1 + WholeWithin(enc, xs[1..], k - |enc(xs[0])|)
  }

  lemma CutLater(a: Str, b: Str, k: nat)
    requires |a| <= k <= |a + b|
    ensures (a + b)[..k] == a + b[..k - |a|]
  {
  }

  lemma {:induction false} CutInside<T>(enc: T -> Str, xs: seq<T>, k: nat)
    requires k <= |EncMany(enc, xs)|
    ensures var j := WholeWithin(enc, xs, k);
            var whole := EncMany(enc, xs[..j]);
            |whole| <= k && if j == |xs| then k == |whole|
                            else k - |whole| < |enc(xs[j])| &&
                                 EncMany(enc, xs)[..k] == whole + enc(xs[j])[..k - |whole|]
  {
    if xs != [] {
      var e, ys := enc(xs[0]), xs[1..];
      var more := EncMany(enc, ys);
      if k < |e| {
        assert EncMany(enc, xs)[..k] == [] + e[..k];
      } else {
        var j := WholeWithin(enc, ys, k - |e|);
        var whole := EncMany(enc, ys[..j]);
        CutInside(enc, ys, k - |e|);
        assert xs[..j + 1][1..] == ys[..j];
        CutLater(e, more, k);
        if j < |ys| {
          Assoc(e, whole, enc(ys[j])[..k - |e| - |whole|]);
        }
      }
    }
  }

  /** Any cut keeps a prefix of the records: those wholly before it. */
  lemma CutKeepsPrefix(rs: seq<Record>, k: nat, now: nat)
    requires forall i :: 0 <= i < |rs| ==> Writable(rs[i]) && Acceptable(rs[i], now)
    requires k <= |EncAll(rs)|
    ensures var j := WholeWithin(EncRecord, rs, k);
            LoadAll(EncAll(rs)[..k], now) == Loading(Unexpired(rs[..j], now), k == |EncAll(rs[..j])|)
  {
    var j := WholeWithin(EncRecord, rs, k);
    CutInside(EncRecord, rs, k);
    if j < |rs| {
      Truncated(rs[..j], rs[j], k - |EncAll(rs[..j])|, now);
    } else {
      assert rs[..j] == rs && EncAll(rs)[..k] == EncAll(rs) + [];
      LoadAfter(rs, [], now);
      assert Unexpired(rs, now) + [] == Unexpired(rs, now);
    }
  }

  /** Loading stops with an error at the first record that is over the limits. */
  lemma OverLimitStops(rs: seq<Record>, bad: Record, rest: Str, now: nat)
    requires forall i :: 0 <= i < |rs| ==> Writable(rs[i]) && Acceptable(rs[i], now)
    requires Writable(bad) && !Acceptable(bad, now)
    ensures LoadAll(EncAll(rs) + (EncRecord(bad) + rest), now) == Loading(Unexpired(rs, now), false)
  {
    LoadAfter(rs, EncRecord(bad) + rest, now);
    NextEncoded(bad, rest, now);
    assert Unexpired(rs, now) + [] == Unexpired(rs, now);
  }

  // ----------------------------------------------------- restored values

  type Id = (nat, nat)

  datatype Value =
    | TextValue(text: Str)
    | HashValue(table: map<Str, Str>)
    | ListValue(items: seq<Str>)
    | SetValue(members: set<Str>)
    | ZSetValue(inserts: seq<(Str, nat)>)
    | JsonValue(json: Str)
    | StreamValue(log: map<Id, Fields>, last: Id, groups: map<Str, Group>)

  /** A consumer group: the last id delivered, what is pending and for whom, and the consumers. */
  datatype Group = Group(delivered: Id, pending: map<Id, Pending>, consumers: map<Str, seq<Id>>)

  datatype Pending = Pending(consumer: Str, time: nat, count: nat)

  datatype Stored = Stored(value: Value, ttl: nat)

  type Table = map<Str, Stored>

  /** Inserting the pairs one after the other. */
  function MapOf<K, V>(ps: seq<(K, V)>): map<K, V> {
    if ps == [] then map[] else MapOf(ps[..|ps| - 1])[ps[|ps| - 1].0 := ps[|ps| - 1].1]
  }

  function Logged(es: seq<Entry>): seq<(Id, Fields)> {
    seq(|es|, i requires 0 <= i < |es| => ((es[i].ms, es[i].num), es[i].fields))
  }

  function LastId(es: seq<Entry>): Id {
    if es == [] then (0, 0) else (es[|es| - 1].ms, es[|es| - 1].num)
  }

  /** The value that the loader builds from what it reads. */
  function Build(b: Body): Value {
    match b
    case Text(text) => TextValue(text)
    case Hash(fields) => HashValue(MapOf(fields))
    case List(items) => ListValue(items)
    case Set(members) => SetValue(set x | x in members)
    case ZSet(scores) => ZSetValue(scores)
    case Json(json) => JsonValue(json)
    case Stream(entries) => StreamValue(MapOf(Logged(entries)), LastId(entries), map[])
  }

  function StoredOf(r: Record): Stored { Stored(Build(r.body), r.ttl) }

  function InsertAll(m: Table, rs: seq<Record>): Table
    decreases |rs|
  {
    if rs == [] then m else InsertAll(m[rs[0].key := StoredOf(rs[0])], rs[1..])
  }

  /** A listing of a map in any order, even with repetitions, builds that map. */
  lemma {:induction false} ListingBuilds<K, V>(ps: seq<(K, V)>, m: map<K, V>)
    requires forall i :: 0 <= i < |ps| ==> ps[i].0 in m && m[ps[i].0] == ps[i].1
    ensures forall k :: k in MapOf(ps) ==> k in m && MapOf(ps)[k] == m[k]
    ensures forall i :: 0 <= i < |ps| ==> ps[i].0 in MapOf(ps)
    ensures (forall k :: k in m ==> exists i :: 0 <= i < |ps| && ps[i].0 == k) ==> MapOf(ps) == m
  {
    if ps != [] {
      var front := ps[..|ps| - 1];
      ListingBuilds(front, m);
      forall i | 0 <= i < |ps| ensures ps[i].0 in MapOf(ps) {
        if i < |ps| - 1 {
          assert front[i].0 in MapOf(front);
        }
      }
    }
  }

  // ------------------------------------------------ what the writer lists

  /** The pairs are those of the map, each once. */
  ghost predicate ListsMap<K, V>(ps: seq<(K, V)>, m: map<K, V>) {
    && (forall i, j :: 0 <= i < j < |ps| ==> ps[i].0 != ps[j].0)
    && (forall i :: 0 <= i < |ps| ==> ps[i].0 in m && m[ps[i].0] == ps[i].1)
    && (forall k :: k in m ==> exists i :: 0 <= i < |ps| && ps[i].0 == k)
  }

  ghost predicate ListsSet(xs: seq<Str>, s: set<Str>) {
    && (forall i, j :: 0 <= i < j < |xs| ==> xs[i] != xs[j])
    && (forall x :: x in xs <==> x in s)
  }

  predicate IdLess(a: Id, b: Id) { a.0 < b.0 || (a.0 == b.0 && a.1 < b.1) }

  /**
   * The body is what the writer makes of the value: a hash or a set in any
   * order, a stream in the order of its ids, a sorted set in its own order.
   */
  ghost predicate Lists(b: Body, v: Value) {
    match b
    case Text(text) => v == TextValue(text)
    case Hash(fields) => v.HashValue? && ListsMap(fields, v.table)
    case List(items) => v == ListValue(items)
    case Set(members) => v.SetValue? && ListsSet(members, v.members)
    case ZSet(scores) => v == ZSetValue(scores)
    case Json(json) => v == JsonValue(json)
    case Stream(entries) => v.StreamValue? && ListsMap(Logged(entries), v.log) && Ascending(entries)
  }

  ghost predicate Ascending(es: seq<Entry>) {
    forall i, j :: 0 <= i < j < |es| ==> IdLess((es[i].ms, es[i].num), (es[j].ms, es[j].num))
  }

  /** A stream without groups whose last id is the greatest that it holds, or zero if it is empty. */
  ghost predicate Intact(v: Value) {
    v.StreamValue? ==>
      v.groups == map[] &&
      if v.log == map[] then v.last == (0, 0)
      else v.last in v.log && forall k :: k in v.log ==> k == v.last || IdLess(k, v.last)
  }

  lemma LastIsGreatest(es: seq<Entry>, log: map<Id, Fields>, last: Id)
    requires ListsMap(Logged(es), log) && Ascending(es)
    ensures last == LastId(es) <==> Intact(StreamValue(log, last, map[]))
  {
    var ps := Logged(es);
    if es != [] {
      var n := |es| - 1;
      assert ps[n].0 == LastId(es);
      forall k | k in log ensures k == LastId(es) || IdLess(k, LastId(es)) {
        var i :| 0 <= i < |ps| && ps[i].0 == k;
        assert i < n ==> IdLess((es[i].ms, es[i].num), (es[n].ms, es[n].num));
      }
    }
  }

  /** A value comes back whole exactly when it is intact. */
  lemma RestoredIff(b: Body, v: Value)
    requires Lists(b, v)
    ensures Build(b) == v <==> Intact(v)
  {
    match b
    case Hash(fields) => ListingBuilds(fields, v.table);
    case Set(members) => assert (set x | x in members) == v.members;
    case Stream(entries) =>
      ListingBuilds(Logged(entries), v.log);
      LastIsGreatest(entries, v.log, v.last);
    case _ =>
  }

  /** Of two entries the later one was deleted: its id is forgotten. */
  lemma DeletedLastForgotten()
    ensures var v := StreamValue(map[(1, 0) := []], (2, 0), map[]);
            var b := Stream([Entry(1, 0, [])]);
            Lists(b, v) && Build(b) == v.(last := (1, 0))
  {
    OneEntry((2, 0), map[]);
  }

  /** A stream with a group comes back without it. */
  lemma GroupForgotten(name: Str, group: Group)
    ensures var v := StreamValue(map[(1, 0) := []], (1, 0), map[name := group]);
            var b := Stream([Entry(1, 0, [])]);
            Lists(b, v) && Build(b) == v.(groups := map[]) && Build(b) != v
  {
    OneEntry((1, 0), map[name := group]);
    assert name in map[name := group];
  }

  lemma OneEntry(last: Id, groups: map<Str, Group>)
    ensures var b := Stream([Entry(1, 0, [])]);
            Lists(b, StreamValue(map[(1, 0) := []], last, groups)) &&
            Build(b) == StreamValue(map[(1, 0) := []], (1, 0), map[])
  {
    var ps := Logged([Entry(1, 0, [])]);
    assert ps[0] == ((1, 0), []) && ps[..0] == [];
    assert ListsMap(ps, map[(1, 0) := []]);
  }

  predicate DistinctKeys(rs: seq<Record>) { forall i, j :: 0 <= i < j < |rs| ==> rs[i].key != rs[j].key }

  /** The store that a list of records with distinct keys describes. */
  function Described(rs: seq<Record>): Table {
    if rs == [] then map[] else Described(rs[1..])[rs[0].key := StoredOf(rs[0])]
  }

  /** What has no expiry or one that is yet to come. */
  function Alive(m: Table, now: nat): Table { map k | k in m && (m[k].ttl == 0 || now < m[k].ttl) :: m[k] }

  lemma {:induction false} DescribedKeys(rs: seq<Record>, k: Str)
    ensures k in Described(rs) ==> exists i :: 0 <= i < |rs| && rs[i].key == k
  {
    if rs != [] && k in Described(rs) && k != rs[0].key {
      DescribedKeys(rs[1..], k);
      var i :| 0 <= i < |rs[1..]| && rs[1..][i].key == k;
      assert rs[i + 1].key == k;
    }
  }

  lemma {:induction false} InsertUnexpired(m: Table, rs: seq<Record>, now: nat)
    requires DistinctKeys(rs)
    ensures InsertAll(m, Unexpired(rs, now)) == m + Alive(Described(rs), now)
    decreases |rs|
  {
    if rs == [] {
      assert Alive(map[], now) == map[];
    } else {
      var r, more := rs[0], rs[1..];
      DescribedKeys(more, r.key);
      assert r.key !in Described(more);
      if Expired(r.ttl, now) {
        InsertUnexpired(m, more, now);
        AliveSkips(Described(more), r.key, StoredOf(r), now);
      } else {
        InsertUnexpired(m[r.key := StoredOf(r)], more, now);
        AliveKeeps(m, Described(more), r.key, StoredOf(r), now);
        assert ([r] + Unexpired(more, now))[1..] == Unexpired(more, now);
      }
    }
  }

  lemma AliveSkips(d: Table, k: Str, v: Stored, now: nat)
    requires k !in d && Expired(v.ttl, now)
    ensures Alive(d[k := v], now) == Alive(d, now)
  {
  }

  lemma AliveKeeps(m: Table, d: Table, k: Str, v: Stored, now: nat)
    requires k !in d && !Expired(v.ttl, now)
    ensures m[k := v] + Alive(d, now) == m + Alive(d[k := v], now)
  {
  }

  /** The bytes of a snapshot. */
  function File(rs: seq<Record>): Str { MAGIC + [VERSION] + EncAll(rs) + [TYPE_EOF] }

  /** What loading a file does to a store, and whether it succeeds. */
  function LoadFile(m: Table, file: Str, now: nat): (Table, bool) {
    if |file| < 6 || file[..4] != MAGIC || file[4] > VERSION then (m, false)
    else
      var l := LoadAll(file[5..], now);
      (InsertAll(m, l.records), l.ok)
  }

  lemma FileParts(e: Str)
    ensures var file := MAGIC + [VERSION] + e + [TYPE_EOF];
            |file| >= 6 && file[..4] == MAGIC && file[4] == VERSION && file[5..] == e + ([TYPE_EOF] + [])
  {
  }

  lemma {:induction false} EndsWellIff(rs: seq<Record>, rest: Str, now: nat)
    requires forall i :: 0 <= i < |rs| ==> Writable(rs[i])
    requires LoadAll(rest, now).ok
    ensures LoadAll(EncAll(rs) + rest, now).ok <==> forall i :: 0 <= i < |rs| ==> Acceptable(rs[i], now)
  {
    if rs == [] {
      assert EncAll(rs) + rest == rest;
    } else {
      var more := rs[1..];
      Assoc(EncRecord(rs[0]), EncAll(more), rest);
      NextEncoded(rs[0], EncAll(more) + rest, now);
      EndsWellIff(more, rest, now);
      assert forall i :: 0 < i < |rs| ==> rs[i] == more[i - 1];
      assert forall i :: 0 <= i < |more| ==> more[i] == rs[i + 1];
    }
  }

  /** A snapshot loads without an error exactly when every record is within the loader's limits. */
  lemma LoadsIff(m: Table, rs: seq<Record>, now: nat)
    requires forall i :: 0 <= i < |rs| ==> Writable(rs[i])
    ensures LoadFile(m, File(rs), now).1 <==> forall i :: 0 <= i < |rs| ==> Acceptable(rs[i], now)
  {
    FileParts(EncAll(rs));
    EndsWellIff(rs, [TYPE_EOF] + [], now);
  }

  /** Any other version byte in the header: files up to version 2 load alike, later ones not at all. */
  lemma VersionIff(m: Table, version: byte, rs: seq<Record>, now: nat)
    requires forall i :: 0 <= i < |rs| ==> Writable(rs[i])
    ensures var r := LoadFile(m, [70, 76, 68, 66, version] + EncAll(rs) + [255], now);
            && (version <= 2 ==> r == LoadFile(m, File(rs), now))
            && (version > 2 ==> r == (m, false))
  {
    FileParts(EncAll(rs));
    VersionParts(version, EncAll(rs));
  }

  lemma VersionParts(version: byte, e: Str)
    ensures var file := [70, 76, 68, 66, version] + e + [255];
            |file| >= 6 && file[..4] == MAGIC && file[4] == version && file[5..] == e + ([TYPE_EOF] + [])
  {
  }

  /** What does not start with the letters FLDB, or ends with the version, is refused. */
  lemma ForeignRefused(m: Table, file: Str, now: nat)
    requires |file| < 6 || file[..4] != [70, 76, 68, 66]
    ensures LoadFile(m, file, now) == (m, false)
  {
  }

  /**
   * The records of a snapshot of the store, completed at the given time: one
   * for each key that has not expired by then, and none for other keys than
   * those of the store. Shards and slots come in any order, and a key that
   * expired while the snapshot was written may be there or not.
   */
  ghost predicate Saves(rs: seq<Record>, m: Table, saved: nat) {
    && DistinctKeys(rs)
    && (forall i :: 0 <= i < |rs| ==> Writable(rs[i]) && Shows(rs[i], m))
    && (forall k :: k in m && !Expired(m[k].ttl, saved) ==> exists i :: 0 <= i < |rs| && rs[i].key == k)
  }

  ghost predicate Shows(r: Record, m: Table) {
    r.key in m && r.ttl == m[r.key].ttl && Lists(r.body, m[r.key].value)
  }

  lemma {:induction false} DescribedAt(rs: seq<Record>, i: nat)
    requires DistinctKeys(rs) && i < |rs|
    ensures rs[i].key in Described(rs) && Described(rs)[rs[i].key] == StoredOf(rs[i])
  {
    if i > 0 {
      DescribedAt(rs[1..], i - 1);
    }
  }

  /** Where the values alive are intact, the records describe what is alive in the store. */
  lemma DescribedIff(rs: seq<Record>, m: Table, saved: nat, now: nat)
    requires Saves(rs, m, saved) && saved <= now
    ensures Alive(Described(rs), now) == Alive(m, now) <==> forall k :: k in Alive(m, now) ==> Intact(m[k].value)
  {
    var d := Described(rs);
    forall k ensures k in Alive(d, now) ==> k in Alive(m, now) {
      DescribedKeys(rs, k);
      if i: nat :| i < |rs| && rs[i].key == k {
        DescribedAt(rs, i);
        assert Shows(rs[i], m);
      }
    }
    forall k | k in Alive(m, now) ensures k in Alive(d, now) && (d[k] == m[k] <==> Intact(m[k].value)) {
      var i: nat :| i < |rs| && rs[i].key == k;
      DescribedAt(rs, i);
      assert Shows(rs[i], m);
      RestoredIff(rs[i].body, m[k].value);
    }
    SameTables(Alive(d, now), Alive(m, now));
  }

  lemma SameTables(a: Table, b: Table)
    requires forall k :: k in a <==> k in b
    ensures a == b <==> forall k :: k in b ==> a[k] == b[k]
  {
  }

  /**
   * A snapshot loaded into an empty store gives the store that was saved,
   * without what has expired since, exactly when every record is within the
   * loader's limits and every value that is still alive is intact.
   */
  lemma SnapshotRestoresIff(m: Table, rs: seq<Record>, saved: nat, now: nat)
    requires Saves(rs, m, saved) && saved <= now
    ensures LoadFile(map[], File(rs), now) == (Alive(m, now), true) <==>
            (forall i :: 0 <= i < |rs| ==> Acceptable(rs[i], now)) &&
            (forall k :: k in Alive(m, now) ==> Intact(m[k].value))
  {
    LoadsIff(map[], rs, now);
    if forall i :: 0 <= i < |rs| ==> Acceptable(rs[i], now) {
      FileParts(EncAll(rs));
      RoundTrip(rs, [], now);
      InsertUnexpired(map[], rs, now);
      assert map[] + Alive(Described(rs), now) == Alive(Described(rs), now);
      DescribedIff(rs, m, saved, now);
    }
  }

  // ------------------------------------------------- a hash that is too large

  /** A name of n letters. */
  function Name(n: nat): (s: Str)
    ensures |s| == n && forall i :: 0 <= i < n ==> s[i] == 97
  {
    seq(n, _ => 97)
  }

  function Names(n: nat): (ps: Fields)
    ensures |ps| == n && forall i :: 0 <= i < n ==> ps[i] == (Name(i), [])
  {
    seq(n, i requires 0 <= i < n => (Name(i), []))
  }

  /** Pairs with distinct keys list the map that they build. */
  lemma {:induction false} ListsOwnMap<K, V>(ps: seq<(K, V)>)
    requires forall i, j :: 0 <= i < j < |ps| ==> ps[i].0 != ps[j].0
    ensures ListsMap(ps, MapOf(ps))
  {
    if ps != [] {
      var n := |ps| - 1;
      var front := ps[..n];
      ListsOwnMap(front);
      assert forall i :: 0 <= i < n ==> ps[i] == front[i];
      forall k | k in MapOf(ps) ensures exists i :: 0 <= i < |ps| && ps[i].0 == k {
        if k != ps[n].0 {
          var i :| 0 <= i < |front| && front[i].0 == k;
          assert ps[i].0 == k;
        }
      }
    }
  }

  lemma NamesAreFields(n: nat)
    requires n < U32
    ensures WritableList(WritablePair, Names(n)) && ListsMap(Names(n), MapOf(Names(n)))
  {
    forall i, j | 0 <= i < j < n ensures Names(n)[i].0 != Names(n)[j].0 {
      assert |Name(i)| != |Name(j)|;
    }
    ListsOwnMap(Names(n));
  }

  /** A hash with one field more than the loader takes is saved and cannot be loaded. */
  lemma LargeHashRefused(key: Str, now: nat)
    requires WritableStr(key)
    ensures var fields := Names(10000001);
            var rs := [Record(key, 0, Hash(fields))];
            Saves(rs, map[key := Stored(HashValue(MapOf(fields)), 0)], now) && !LoadFile(map[], File(rs), now).1
  {
    var fields := Names(10000001);
    var r := Record(key, 0, Hash(fields));
    var m: Table := map[key := Stored(HashValue(MapOf(fields)), 0)];
    NamesAreFields(10000001);
    assert Writable(r) && Shows(r, m) && !Acceptable(r, now);
    assert [r][0].key == key;
    assert Saves([r], m, now);
    LoadsIff(map[], [r], now);
    assert !Acceptable([r][0], now);
  }

  /** A bitmap whose first bit is set is the byte 0x80, which is no UTF-8: it is saved and cannot be loaded. */
  lemma BitmapRefused(key: Str, now: nat)
    requires WritableStr(key)
    ensures var rs := [Record(key, 0, Text([0x80]))];
            Saves(rs, map[key := Stored(TextValue([0x80]), 0)], now) && !LoadFile(map[], File(rs), now).1
  {
    var r := Record(key, 0, Text([0x80]));
    var m: Table := map[key := Stored(TextValue([0x80]), 0)];
    assert Writable(r) && Shows(r, m) && !Acceptable(r, now);
    assert [r][0].key == key;
    assert Saves([r], m, now);
    LoadsIff(map[], [r], now);
    assert !Acceptable([r][0], now);
  }
}
