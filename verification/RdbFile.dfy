/**
 * The snapshot writer and loader as they run: a growing output, a cursor
 * over the input, one loop per collection, and the table being filled.
 *
 * A failed read or write of the file itself is not modelled; a read past
 * the end is.
 */
module RdbFile {
  import opened Bytes
  import opened Common
  import opened RdbFormat
  import opened Rdb

  // ------------------------------------------------------------- saving

  lemma {:induction false} EncManySnoc<T>(enc: T -> Str, xs: seq<T>, x: T)
    ensures EncMany(enc, xs + [x]) == EncMany(enc, xs) + enc(x)
  {
    if xs == [] {
      assert xs + [x] == [x];
    } else {
      assert (xs + [x])[1..] == xs[1..] + [x];
      EncManySnoc(enc, xs[1..], x);
    }
  }

  lemma EncManyStep<T>(out: Str, enc: T -> Str, xs: seq<T>, i: nat)
    requires i < |xs|
    ensures out + EncMany(enc, xs[..i]) + enc(xs[i]) == out + EncMany(enc, xs[..i + 1])
  {
    assert xs[..i + 1] == xs[..i] + [xs[i]];
    EncManySnoc(enc, xs[..i], xs[i]);
  }

  lemma EncManyDone<T>(out: Str, enc: T -> Str, xs: seq<T>)
    ensures out + LittleEndian(|xs|, 4) + EncMany(enc, xs[..|xs|]) == out + EncList(enc, xs)
  {
    assert xs[..|xs|] == xs;
  }

  /** The records in the slots of a shard, in slot order. */
  function Present(slots: seq<Option<Record>>): seq<Record> {
    if slots == [] then []
    else
      var last := slots[|slots| - 1];
      Present(slots[..|slots| - 1]) + if last.Some? then [last.value] else []
  }

  /** The records of a store, in the order in which a save meets them. */
  function Listing(shards: seq<seq<Option<Record>>>): seq<Record> {
    if shards == [] then [] else Listing(shards[..|shards| - 1]) + Present(shards[|shards| - 1])
  }

  lemma {:induction false} EncAllConcat(a: seq<Record>, b: seq<Record>)
    ensures EncAll(a + b) == EncAll(a) + EncAll(b)
  {
    if a == [] {
      assert a + b == b;
    } else {
      assert (a + b)[1..] == a[1..] + b;
      EncAllConcat(a[1..], b);
      Assoc(EncRecord(a[0]), EncAll(a[1..]), EncAll(b));
    }
  }

  lemma {:induction false} UnexpiredConcat(a: seq<Record>, b: seq<Record>, now: nat)
    ensures Unexpired(a + b, now) == Unexpired(a, now) + Unexpired(b, now)
  {
    if a == [] {
      assert a + b == b;
    } else {
      assert (a + b)[1..] == a[1..] + b;
      UnexpiredConcat(a[1..], b, now);
    }
  }

  /** The bytes written for a list of records. */
  function Written(rs: seq<Record>, now: nat): Str { EncAll(Unexpired(rs, now)) }

  lemma WrittenConcat(out: Str, a: seq<Record>, b: seq<Record>, now: nat)
    ensures out + Written(a, now) + Written(b, now) == out + Written(a + b, now)
  {
    UnexpiredConcat(a, b, now);
    EncAllConcat(Unexpired(a, now), Unexpired(b, now));
    Assoc(out, Written(a, now), Written(b, now));
  }

  lemma WrittenOne(r: Record, now: nat)
    ensures Written([r], now) == if Expired(r.ttl, now) then [] else EncRecord(r)
  {
    assert [r][1..] == [] && Unexpired([], now) == [];
    assert Unexpired([r], now) == if Expired(r.ttl, now) then [] else [r];
    assert EncMany(EncRecord, [r]) == EncRecord(r) + EncMany(EncRecord, []);
  }

  class Writer {
    var out: Str

    constructor ()
      ensures out == []
    {
      out := [];
    }

    method WriteBytes(b: Str)
      modifies this
      ensures out == old(out) + EncStr(b)
    {
      out := out + LittleEndian(|b|, 4);
      out := out + b;
    }

    method WriteStrs(items: seq<Str>)
      modifies this
      ensures out == old(out) + EncList(EncStr, items)
    {
      out := out + LittleEndian(|items|, 4);
      ghost var base := out;
      for i := 0 to |items|
        invariant out == base + EncMany(EncStr, items[..i])
      {
        WriteBytes(items[i]);
        EncManyStep(base, EncStr, items, i);
      }
      EncManyDone(old(out), EncStr, items);
    }

    method WritePairs(fields: Fields)
      modifies this
      ensures out == old(out) + EncList(EncPair, fields)
    {
      out := out + LittleEndian(|fields|, 4);
      ghost var base := out;
      for i := 0 to |fields|
        invariant out == base + EncMany(EncPair, fields[..i])
      {
        ghost var before := out;
        WriteBytes(fields[i].0);
        WriteBytes(fields[i].1);
        Assoc(before, EncStr(fields[i].0), EncStr(fields[i].1));
        EncManyStep(base, EncPair, fields, i);
      }
      EncManyDone(old(out), EncPair, fields);
    }

    method WriteScores(scores: seq<(Str, nat)>)
      modifies this
      ensures out == old(out) + EncList(EncScore, scores)
    {
      out := out + LittleEndian(|scores|, 4);
      ghost var base := out;
      for i := 0 to |scores|
        invariant out == base + EncMany(EncScore, scores[..i])
      {
        ghost var before := out;
        WriteBytes(scores[i].0);
        out := out + LittleEndian(scores[i].1, 8);
        Assoc(before, EncStr(scores[i].0), LittleEndian(scores[i].1, 8));
        EncManyStep(base, EncScore, scores, i);
      }
      EncManyDone(old(out), EncScore, scores);
    }

    method WriteEntry(e: Entry)
      modifies this
      ensures out == old(out) + EncEntry(e)
    {
      out := out + LittleEndian(e.ms, 8);
      out := out + LittleEndian(e.num, 8);
      WritePairs(e.fields);
      Four(old(out), LittleEndian(e.ms, 8), LittleEndian(e.num, 8), EncList(EncPair, e.fields));
    }

    method WriteEntries(entries: seq<Entry>)
      modifies this
      ensures out == old(out) + EncList(EncEntry, entries)
    {
      out := out + LittleEndian(|entries|, 4);
      ghost var base := out;
      for i := 0 to |entries|
        invariant out == base + EncMany(EncEntry, entries[..i])
      {
        WriteEntry(entries[i]);
        EncManyStep(base, EncEntry, entries, i);
      }
      EncManyDone(old(out), EncEntry, entries);
    }

    method WriteBody(b: Body)
      modifies this
      ensures out == old(out) + EncBody(b)
    {
      match b {
        case Text(text) => WriteBytes(text);
        case Hash(fields) => WritePairs(fields);
        case List(items) => WriteStrs(items);
        case Set(members) => WriteStrs(members);
        case ZSet(scores) => WriteScores(scores);
        case Json(json) => WriteBytes(json);
        case Stream(entries) => WriteEntries(entries);
      }
    }

    method WriteRecord(r: Record)
      modifies this
      ensures out == old(out) + EncRecord(r)
    {
      out := out + [Tag(r.body)];
      out := out + LittleEndian(r.ttl, 8);
      WriteBytes(r.key);
      WriteBody(r.body);
      Five(old(out), [Tag(r.body)], LittleEndian(r.ttl, 8), EncStr(r.key), EncBody(r.body));
    }

    /** One slot: an empty or expired one is passed over. */
    method SaveSlot(slot: Option<Record>, now: nat)
      modifies this
      ensures out == old(out) + Written(if slot.Some? then [slot.value] else [], now)
    {
      if slot.Some? {
        WrittenOne(slot.value, now);
        if !Expired(slot.value.ttl, now) {
          WriteRecord(slot.value);
        }
      }
    }

    /** One shard, slot by slot. */
    method SaveShard(slots: seq<Option<Record>>, now: nat)
      modifies this
      ensures out == old(out) + Written(Present(slots), now)
    {
      ghost var base := out;
      for i := 0 to |slots|
        invariant out == base + Written(Present(slots[..i]), now)
      {
        SaveSlot(slots[i], now);
        WrittenConcat(base, Present(slots[..i]), if slots[i].Some? then [slots[i].value] else [], now);
        assert slots[..i + 1][..i] == slots[..i];
      }
      assert slots[..|slots|] == slots;
    }

    /** The whole snapshot. */
    method Save(shards: seq<seq<Option<Record>>>, now: nat)
      requires out == []
      modifies this
      ensures out == File(Unexpired(Listing(shards), now))
    {
      out := MAGIC + [VERSION];
      for i := 0 to |shards|
        invariant out == MAGIC + [VERSION] + Written(Listing(shards[..i]), now)
      {
        SaveShard(shards[i], now);
        WrittenConcat(MAGIC + [VERSION], Listing(shards[..i]), Present(shards[i]), now);
        assert shards[..i + 1][..i] == shards[..i];
      }
      assert shards[..|shards|] == shards;
      out := out + [TYPE_EOF];
    }
  }

  lemma Four(a: Str, b: Str, c: Str, d: Str)
    ensures a + b + c + d == a + (b + (c + d))
  {
  }

  lemma Five(a: Str, b: Str, c: Str, d: Str, e: Str)
    ensures a + b + c + d + e == a + (b + (c + (d + e)))
  {
  }

  // ------------------------------------------------------------ loading

  /** A read method returned what the format says of the bytes that were ahead. */
  predicate Got<T(==)>(r: Option<T>, spec: Res<T>, rest: Str) {
    match spec
    case Fail => r.None?
    case Ok(x, s) => r == Some(x) && rest == s
  }

  predicate Passed(ok: bool, spec: Option<Str>, rest: Str) {
    ok == spec.Some? && (ok ==> rest == spec.value)
  }

  predicate Leads<T(==)>(read: Str -> Res<T>, s: Str, n: nat, acc: seq<T>, r: Res<seq<T>>) {
    ReadMany(read, s, n, acc) == r
  }

  lemma LeadsOnce<T>(read: Str -> Res<T>, s: Str, n: nat, acc: seq<T>, r: Res<seq<T>>)
    requires n > 0 && Leads(read, s, n, acc, r)
    ensures match read(s)
            case Fail => r == Fail
            case Ok(x, rest) => Leads(read, rest, n - 1, acc + [x], r)
  {
  }

  predicate SkipLeads(skip: Str -> Option<Str>, s: Str, n: nat, r: Option<Str>) {
    SkipMany(skip, s, n) == r
  }

  lemma SkipLeadsOnce(skip: Str -> Option<Str>, s: Str, n: nat, r: Option<Str>)
    requires n > 0 && SkipLeads(skip, s, n, r)
    ensures match skip(s)
            case None => r == None
            case Some(rest) => SkipLeads(skip, rest, n - 1, r)
  {
  }

  lemma MapOfSnoc<K, V>(ps: seq<(K, V)>, p: (K, V))
    ensures MapOf(ps + [p]) == MapOf(ps)[p.0 := p.1]
  {
    assert (ps + [p])[..|ps|] == ps;
  }

  lemma SetOfSnoc(xs: seq<Str>, x: Str)
    ensures (set y | y in xs + [x]) == (set y | y in xs) + {x}
  {
  }

  lemma StreamStarts()
    ensures Build(Stream([])) == StreamValue(map[], (0, 0), map[])
  {
    assert Logged([]) == [];
  }

  lemma StreamGrows(es: seq<Entry>, e: Entry)
    ensures Build(Stream(es + [e])) ==
            StreamValue(Build(Stream(es)).log[(e.ms, e.num) := e.fields], (e.ms, e.num), map[])
  {
    var p := ((e.ms, e.num), e.fields);
    assert Logged(es + [e]) == Logged(es) + [p];
    MapOfSnoc(Logged(es), p);
  }

  /** A loaded value is what the loader builds from the items read. */
  predicate Built(r: Option<Value>, spec: Res<Body>, rest: Str) {
    match spec
    case Fail => r.None?
    case Ok(b, s) => r == Some(Build(b)) && rest == s
  }

  class Reader {
    const data: Str
    var at: nat

    ghost predicate Valid()
      reads this
    {
      at <= |data|
    }

    /** The bytes ahead. */
    ghost function Rest(): Str
      requires Valid()
      reads this
    {
      data[at..]
    }

    constructor (file: Str)
      ensures Valid() && data == file && Rest() == file
    {
      data := file;
      at := 0;
    }

    method ReadU(k: nat) returns (r: Option<nat>)
      requires Valid()
      modifies this
      ensures Valid() && Got(r, ReadInt(old(Rest()), k), Rest())
    {
      if |data| - at < k {
        return None;
      }
      assert Rest()[..k] == data[at..at + k] && Rest()[k..] == data[at + k..];
      r := Some(FromLittleEndian(data[at..at + k]));
      at := at + k;
    }

    method ReadString() returns (r: Option<Str>)
      requires Valid()
      modifies this
      ensures Valid() && Got(r, ReadStr(old(Rest())), Rest())
    {
      var len := ReadU(4);
      if len.None? || len.value > MAX_LOAD_STRING || |data| - at < len.value {
        return None;
      }
      var n := len.value;
      assert Rest()[..n] == data[at..at + n] && Rest()[n..] == data[at + n..];
      if !Utf8(data[at..at + n]) {
        return None;
      }
      r := Some(data[at..at + n]);
      at := at + n;
    }

    /** Skips in pieces of at most 8192 bytes. */
    method SkipString() returns (ok: bool)
      requires Valid()
      modifies this
      ensures Valid() && Passed(ok, SkipStr(old(Rest())), Rest())
    {
      var len := ReadU(4);
      if len.None? {
        return false;
      }
      ghost var start := at;
      assert data[start..][..0] == [];
      var remaining := len.value;
      while remaining > 0
        invariant Valid() && start <= at && remaining <= len.value && at == start + (len.value - remaining)
      {
        var chunk := if remaining < 8192 then remaining else 8192;
        if |data| - at < chunk {
          return false;
        }
        at := at + chunk;
        remaining := remaining - chunk;
      }
      assert data[start..][len.value..] == data[at..];
      return true;
    }

    method ReadStrs(n: nat) returns (r: Option<seq<Str>>)
      requires Valid()
      modifies this
      ensures Valid() && Got(r, ReadMany(ReadStr, old(Rest()), n, []), Rest())
    {
      ghost var goal := ReadMany(ReadStr, Rest(), n, []);
      var items: seq<Str> := [];
      for i := 0 to n
        invariant Valid() && Leads(ReadStr, Rest(), n - i, items, goal)
      {
        LeadsOnce(ReadStr, Rest(), n - i, items, goal);
        var x := ReadString();
        if x.None? {
          return None;
        }
        items := items + [x.value];
      }
      return Some(items);
    }

    method ReadFieldValue() returns (r: Option<(Str, Str)>)
      requires Valid()
      modifies this
      ensures Valid() && Got(r, ReadPair(old(Rest())), Rest())
    {
      var f := ReadString();
      if f.None? {
        return None;
      }
      var v := ReadString();
      if v.None? {
        return None;
      }
      return Some((f.value, v.value));
    }

    method ReadPairs(n: nat) returns (r: Option<Fields>)
      requires Valid()
      modifies this
      ensures Valid() && Got(r, ReadMany(ReadPair, old(Rest()), n, []), Rest())
    {
      ghost var goal := ReadMany(ReadPair, Rest(), n, []);
      var fields: Fields := [];
      for i := 0 to n
        invariant Valid() && Leads(ReadPair, Rest(), n - i, fields, goal)
      {
        LeadsOnce(ReadPair, Rest(), n - i, fields, goal);
        var p := ReadFieldValue();
        if p.None? {
          return None;
        }
        fields := fields + [p.value];
      }
      return Some(fields);
    }

    method ReadMemberScore() returns (r: Option<(Str, nat)>)
      requires Valid()
      modifies this
      ensures Valid() && Got(r, ReadScore(old(Rest())), Rest())
    {
      var m := ReadString();
      if m.None? {
        return None;
      }
      var b := ReadU(8);
      if b.None? {
        return None;
      }
      return Some((m.value, b.value));
    }

    method ReadScores(n: nat) returns (r: Option<seq<(Str, nat)>>)
      requires Valid()
      modifies this
      ensures Valid() && Got(r, ReadMany(ReadScore, old(Rest()), n, []), Rest())
    {
      ghost var goal := ReadMany(ReadScore, Rest(), n, []);
      var scores: seq<(Str, nat)> := [];
      for i := 0 to n
        invariant Valid() && Leads(ReadScore, Rest(), n - i, scores, goal)
      {
        LeadsOnce(ReadScore, Rest(), n - i, scores, goal);
        var p := ReadMemberScore();
        if p.None? {
          return None;
        }
        scores := scores + [p.value];
      }
      return Some(scores);
    }

    /** A hash table filled while reading. */
    method ReadHash(n: nat) returns (r: Option<map<Str, Str>>)
      requires Valid()
      modifies this
      ensures Valid()
      ensures var spec := ReadMany(ReadPair, old(Rest()), n, []);
              if spec.Ok? then r == Some(MapOf(spec.value)) && Rest() == spec.rest else r.None?
    {
      ghost var goal := ReadMany(ReadPair, Rest(), n, []);
      ghost var seen: Fields := [];
      var h: map<Str, Str> := map[];
      for i := 0 to n
        invariant Valid() && Leads(ReadPair, Rest(), n - i, seen, goal) && h == MapOf(seen)
      {
        LeadsOnce(ReadPair, Rest(), n - i, seen, goal);
        var p := ReadFieldValue();
        if p.None? {
          return None;
        }
        MapOfSnoc(seen, p.value);
        h := h[p.value.0 := p.value.1];
        seen := seen + [p.value];
      }
      return Some(h);
    }

    /** A set filled while reading. */
    method ReadSet(n: nat) returns (r: Option<set<Str>>)
      requires Valid()
      modifies this
      ensures Valid()
      ensures var spec := ReadMany(ReadStr, old(Rest()), n, []);
              if spec.Ok? then r == Some(set x | x in spec.value) && Rest() == spec.rest else r.None?
    {
      ghost var goal := ReadMany(ReadStr, Rest(), n, []);
      ghost var seen: seq<Str> := [];
      var members: set<Str> := {};
      for i := 0 to n
        invariant Valid() && Leads(ReadStr, Rest(), n - i, seen, goal) && members == set x | x in seen
      {
        LeadsOnce(ReadStr, Rest(), n - i, seen, goal);
        var x := ReadString();
        if x.None? {
          return None;
        }
        SetOfSnoc(seen, x.value);
        members := members + {x.value};
        seen := seen + [x.value];
      }
      return Some(members);
    }

    method ReadStreamEntry() returns (r: Option<Entry>)
      requires Valid()
      modifies this
      ensures Valid() && Got(r, ReadEntry(old(Rest())), Rest())
    {
      var ms := ReadU(8);
      if ms.None? {
        return None;
      }
      var num := ReadU(8);
      if num.None? {
        return None;
      }
      CountFits(Rest());
      var n := ReadU(4);
      if n.None? {
        return None;
      }
      var fields := ReadPairs(n.value);
      if fields.None? {
        return None;
      }
      return Some(Entry(ms.value, num.value, fields.value));
    }

    /** A stream: entries by id, and the id read last. */
    method ReadStream(n: nat) returns (r: Option<Value>)
      requires Valid()
      modifies this
      ensures Valid()
      ensures var spec := ReadMany(ReadEntry, old(Rest()), n, []);
              if spec.Ok? then r == Some(Build(Stream(spec.value))) && Rest() == spec.rest else r.None?
    {
      ghost var goal := ReadMany(ReadEntry, Rest(), n, []);
      ghost var seen: seq<Entry> := [];
      var log: map<Id, Fields> := map[];
      var last: Id := (0, 0);
      StreamStarts();
      for i := 0 to n
        invariant Valid() && Leads(ReadEntry, Rest(), n - i, seen, goal)
        invariant StreamValue(log, last, map[]) == Build(Stream(seen))
      {
        LeadsOnce(ReadEntry, Rest(), n - i, seen, goal);
        var e := ReadStreamEntry();
        if e.None? {
          return None;
        }
        StreamGrows(seen, e.value);
        last := (e.value.ms, e.value.num);
        log := log[last := e.value.fields];
        seen := seen + [e.value];
      }
      return Some(StreamValue(log, last, map[]));
    }

    /** A count, refused above the limit. */
    method ReadCount() returns (r: Option<nat>)
      requires Valid()
      modifies this
      ensures Valid()
      ensures var spec := ReadInt(old(Rest()), 4);
              if spec.Ok? && spec.value <= MAX_COUNT then r == Some(spec.value) && Rest() == spec.rest else r.None?
    {
      r := ReadU(4);
      if r.Some? && r.value > MAX_COUNT {
        return None;
      }
    }

    method LoadHash() returns (r: Option<Value>)
      requires Valid()
      modifies this
      ensures Valid() && Built(r, ReadBody(1, old(Rest())), Rest())
    {
      var n := ReadCount();
      if n.None? {
        return None;
      }
      var x := ReadHash(n.value);
      r := if x.None? then None else Some(HashValue(x.value));
    }

    method LoadList() returns (r: Option<Value>)
      requires Valid()
      modifies this
      ensures Valid() && Built(r, ReadBody(2, old(Rest())), Rest())
    {
      var n := ReadCount();
      if n.None? {
        return None;
      }
      var x := ReadStrs(n.value);
      r := if x.None? then None else Some(ListValue(x.value));
    }

    method LoadSet() returns (r: Option<Value>)
      requires Valid()
      modifies this
      ensures Valid() && Built(r, ReadBody(3, old(Rest())), Rest())
    {
      var n := ReadCount();
      if n.None? {
        return None;
      }
      var x := ReadSet(n.value);
      r := if x.None? then None else Some(SetValue(x.value));
    }

    method LoadZSet() returns (r: Option<Value>)
      requires Valid()
      modifies this
      ensures Valid() && Built(r, ReadBody(4, old(Rest())), Rest())
    {
      var n := ReadCount();
      if n.None? {
        return None;
      }
      var x := ReadScores(n.value);
      r := if x.None? then None else Some(ZSetValue(x.value));
    }

    method LoadStream() returns (r: Option<Value>)
      requires Valid()
      modifies this
      ensures Valid() && Built(r, ReadBody(6, old(Rest())), Rest())
    {
      var n := ReadCount();
      if n.None? {
        return None;
      }
      r := ReadStream(n.value);
    }

    method ReadValue(tag: byte) returns (r: Option<Value>)
      requires Valid()
      modifies this
      ensures Valid() && Built(r, ReadBody(tag, old(Rest())), Rest())
    {
      match tag {
        case 0 =>
          var x := ReadString();
          r := if x.None? then None else Some(TextValue(x.value));
        case 1 => r := LoadHash();
        case 2 => r := LoadList();
        case 3 => r := LoadSet();
        case 4 => r := LoadZSet();
        case 5 =>
          var x := ReadString();
          r := if x.None? then None else Some(JsonValue(x.value));
        case 6 => r := LoadStream();
        case _ => r := None;
      }
    }

    method SkipStrs(n: nat) returns (ok: bool)
      requires Valid()
      modifies this
      ensures Valid() && Passed(ok, SkipMany(SkipStr, old(Rest()), n), Rest())
    {
      ghost var goal := SkipMany(SkipStr, Rest(), n);
      for i := 0 to n
        invariant Valid() && SkipLeads(SkipStr, Rest(), n - i, goal)
      {
        SkipLeadsOnce(SkipStr, Rest(), n - i, goal);
        var one := SkipString();
        if !one {
          return false;
        }
      }
      return true;
    }

    method SkipTwo() returns (ok: bool)
      requires Valid()
      modifies this
      ensures Valid() && Passed(ok, SkipPair(old(Rest())), Rest())
    {
      ok := SkipString();
      if ok {
        ok := SkipString();
      }
    }

    method SkipPairs(n: nat) returns (ok: bool)
      requires Valid()
      modifies this
      ensures Valid() && Passed(ok, SkipMany(SkipPair, old(Rest()), n), Rest())
    {
      ghost var goal := SkipMany(SkipPair, Rest(), n);
      for i := 0 to n
        invariant Valid() && SkipLeads(SkipPair, Rest(), n - i, goal)
      {
        SkipLeadsOnce(SkipPair, Rest(), n - i, goal);
        var one := SkipTwo();
        if !one {
          return false;
        }
      }
      return true;
    }

    method SkipMemberScore() returns (ok: bool)
      requires Valid()
      modifies this
      ensures Valid() && Passed(ok, SkipScore(old(Rest())), Rest())
    {
      ok := SkipString();
      if ok {
        var b := ReadU(8);
        ok := b.Some?;
      }
    }

    method SkipScores(n: nat) returns (ok: bool)
      requires Valid()
      modifies this
      ensures Valid() && Passed(ok, SkipMany(SkipScore, old(Rest()), n), Rest())
    {
      ghost var goal := SkipMany(SkipScore, Rest(), n);
      for i := 0 to n
        invariant Valid() && SkipLeads(SkipScore, Rest(), n - i, goal)
      {
        SkipLeadsOnce(SkipScore, Rest(), n - i, goal);
        var one := SkipMemberScore();
        if !one {
          return false;
        }
      }
      return true;
    }

    method SkipStreamEntry() returns (ok: bool)
      requires Valid()
      modifies this
      ensures Valid() && Passed(ok, SkipEntry(old(Rest())), Rest())
    {
      var ms := ReadU(8);
      if ms.None? {
        return false;
      }
      var num := ReadU(8);
      if num.None? {
        return false;
      }
      var n := ReadU(4);
      if n.None? {
        return false;
      }
      ok := SkipPairs(n.value);
    }

    method SkipStream(n: nat) returns (ok: bool)
      requires Valid()
      modifies this
      ensures Valid() && Passed(ok, SkipMany(SkipEntry, old(Rest()), n), Rest())
    {
      ghost var goal := SkipMany(SkipEntry, Rest(), n);
      for i := 0 to n
        invariant Valid() && SkipLeads(SkipEntry, Rest(), n - i, goal)
      {
        SkipLeadsOnce(SkipEntry, Rest(), n - i, goal);
        var one := SkipStreamEntry();
        if !one {
          return false;
        }
      }
      return true;
    }

    method SkipValue(tag: byte) returns (ok: bool)
      requires Valid()
      modifies this
      ensures Valid() && Passed(ok, SkipBody(tag, old(Rest())), Rest())
    {
      if tag == 0 || tag == 5 {
        ok := SkipString();
        return;
      }
      if tag > 6 {
        return false;
      }
      var n := ReadU(4);
      if n.None? {
        return false;
      }
      match tag {
        case 1 => ok := SkipPairs(n.value);
        case 4 => ok := SkipScores(n.value);
        case 6 => ok := SkipStream(n.value);
        case _ => ok := SkipStrs(n.value);
      }
    }

    /** One turn of the record loop. */
    method NextRecord(now: nat) returns (step: Step)
      requires Valid()
      modifies this
      ensures Valid() && StepIs(step, ReadNext(old(Rest()), now), Rest())
    {
      if at == |data| || data[at] == TYPE_EOF {
        return End;
      }
      var tag := data[at];
      assert Rest()[0] == tag && Rest()[1..] == data[at + 1..];
      at := at + 1;
      var ttl := ReadU(8);
      if ttl.None? {
        return Failed;
      }
      var key := ReadString();
      if key.None? {
        return Failed;
      }
      if Expired(ttl.value, now) {
        var ok := SkipValue(tag);
        return if ok then Pass else Failed;
      }
      var v := ReadValue(tag);
      return if v.None? then Failed else Put(key.value, Stored(v.value, ttl.value));
    }
  }

  datatype Step = End | Failed | Pass | Put(key: Str, stored: Stored)

  predicate StepIs(step: Step, n: Next, rest: Str) {
    match n
    case Done => step == End
    case Broken => step == Failed
    case Skipped(r) => step == Pass && rest == r
    case Loaded(record, r) => step == Put(record.key, StoredOf(record)) && rest == r
  }

  /** With `left` still to read, m and count are what the whole input leads to. */
  predicate OnTheWay(m: Table, count: nat, left: Str, now: nat, goal: Table, total: nat, ok: bool) {
    var l := LoadAll(left, now);
    InsertAll(m, l.records) == goal && count + |l.records| == total && l.ok == ok
  }

  lemma OnTheWayOnce(m: Table, count: nat, left: Str, now: nat, goal: Table, total: nat, ok: bool)
    requires OnTheWay(m, count, left, now, goal, total, ok)
    ensures match ReadNext(left, now)
            case Done => m == goal && count == total && ok
            case Broken => m == goal && count == total && !ok
            case Skipped(rest) => OnTheWay(m, count, rest, now, goal, total, ok)
            case Loaded(r, rest) => OnTheWay(m[r.key := StoredOf(r)], count + 1, rest, now, goal, total, ok)
  {
    var n := ReadNext(left, now);
    if n.Loaded? {
      var more := LoadAll(n.rest, now).records;
      assert ([n.record] + more)[1..] == more;
    }
  }

  class Loader {
    var store: Table

    constructor ()
      ensures store == map[]
    {
      store := map[];
    }

    /** One turn of the loop: none to go on, or whether the end was proper. */
    method Turn(reader: Reader, count: nat, now: nat, ghost goal: Table, ghost total: nat, ghost ok: bool)
      returns (count': nat, stop: Option<bool>)
      requires reader.Valid() && OnTheWay(store, count, reader.Rest(), now, goal, total, ok)
      modifies this, reader
      ensures reader.Valid()
      ensures stop.None? ==> OnTheWay(store, count', reader.Rest(), now, goal, total, ok) &&
                             |reader.Rest()| < |old(reader.Rest())|
      ensures stop.Some? ==> store == goal && count' == total && stop.value == ok
    {
      OnTheWayOnce(store, count, reader.Rest(), now, goal, total, ok);
      var step := reader.NextRecord(now);
      match step {
        case End => return count, Some(true);
        case Failed => return count, Some(false);
        case Pass => return count, None;
        case Put(key, stored) =>
          store := store[key := stored];
          return count + 1, None;
      }
    }

    /** The record loop. */
    method LoadRecords(body: Str, now: nat) returns (count: nat, ok: bool)
      modifies this
      ensures var l := LoadAll(body, now);
              store == InsertAll(old(store), l.records) && count == |l.records| && ok == l.ok
    {
      var reader := new Reader(body);
      count := 0;
      ghost var l := LoadAll(body, now);
      ghost var goal := InsertAll(store, l.records);
      var stop: Option<bool> := None;
      while stop.None?
        invariant reader.Valid() && fresh(reader)
        invariant stop.None? ==> OnTheWay(store, count, reader.Rest(), now, goal, |l.records|, l.ok)
        invariant stop.Some? ==> store == goal && count == |l.records| && stop.value == l.ok
        decreases stop.None?, |reader.Rest()|
      {
        count, stop := Turn(reader, count, now, goal, |l.records|, l.ok);
      }
      return count, stop.value;
    }

    /** Keys loaded before an error stay; the result counts the keys inserted. */
    method Load(file: Str, now: nat) returns (r: Option<nat>)
      modifies this
      ensures (store, r.Some?) == LoadFile(old(store), file, now)
      ensures r.Some? ==> r.value == |LoadAll(file[5..], now).records|
    {
      if |file| < 6 {
        return None;
      }
      if file[..4] != MAGIC || file[4] > VERSION {
        return None;
      }
      var count, ok := LoadRecords(file[5..], now);
      return if ok then Some(count) else None;
    }
  }

  lemma {:induction false} LittleEndianBound(s: Str)
    ensures FromLittleEndian(s) < Pow256(|s|)
  {
    if s != [] {
      LittleEndianBound(s[1..]);
    }
  }

  lemma CountFits(s: Str)
    ensures ReadInt(s, 4).Ok? ==> ReadInt(s, 4).value <= U32
  {
    if |s| >= 4 {
      LittleEndianBound(s[..4]);
      Powers();
    }
  }
}
