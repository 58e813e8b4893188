/**
 * The snapshot format: what a record looks like on disk, what reading and
 * skipping make of arbitrary bytes, and how the two agree.
 *
 * Strings are byte strings; a score is its 64 bits.
 */
module RdbFormat {
  import opened Bytes
  import opened Common

  type Str = seq<byte>
  type Fields = seq<(Str, Str)>

  const MAX_LOAD_STRING: nat := 512 * 1024 * 1024
  const MAX_COUNT: nat := 10_000_000
  const U32: nat := 0x1_0000_0000
  const U64: nat := 0x1_0000_0000_0000_0000
  const TYPE_EOF: byte := 255

  /** What a read makes of the bytes ahead: a value and the bytes after it. */
  datatype Res<+T> = Ok(value: T, rest: Str) | Fail

  datatype Entry = Entry(ms: nat, num: nat, fields: Fields)

  /** A stored value in the order in which it is written. */
  datatype Body =
    | Text(text: Str)
    | Hash(fields: Fields)
    | List(items: seq<Str>)
    | Set(members: seq<Str>)
    | ZSet(scores: seq<(Str, nat)>)
    | Json(json: Str)
    | Stream(entries: seq<Entry>)

  datatype Record = Record(key: Str, ttl: nat, body: Body)

  // ------------------------------------------------------------- integers

  function Pow256(k: nat): nat { if k == 0 then 1 else 256 * Pow256(k - 1) }

  /** The k low bytes of n, least significant first. */
  function LittleEndian(n: nat, k: nat): Str {
    if k == 0 then [] else [n % 256] + LittleEndian(n / 256, k - 1)
  }

  function FromLittleEndian(s: Str): nat {
    if s == [] then 0 else s[0] + 256 * FromLittleEndian(s[1..])
  }

  lemma {:induction false} LittleEndianExact(n: nat, k: nat)
    requires n < Pow256(k)
    ensures |LittleEndian(n, k)| == k && FromLittleEndian(LittleEndian(n, k)) == n
  {
    if k > 0 {
      LittleEndianExact(n / 256, k - 1);
      assert LittleEndian(n, k)[1..] == LittleEndian(n / 256, k - 1);
    }
  }

  /** The least significant byte comes first. */
  lemma ByteOrder()
    ensures LittleEndian(0x0102_0304, 4) == [4, 3, 2, 1] && FromLittleEndian([4, 3, 2, 1]) == 0x0102_0304
  {
    assert LittleEndian(1, 1) == [1];
    assert LittleEndian(0x0102, 2) == [2, 1];
    assert LittleEndian(0x01_0203, 3) == [3, 2, 1];
    assert LittleEndian(0x0102_0304, 4) == [4, 3, 2, 1];
    Powers();
    LittleEndianExact(0x0102_0304, 4);
  }

  /** The type byte of a record, value by value. */
  lemma TypeBytes(key: Str, ttl: nat, b: Body)
    ensures EncRecord(Record(key, ttl, b))[0] ==
            match b
            case Text(_) => 0
            case Hash(_) => 1
            case List(_) => 2
            case Set(_) => 3
            case ZSet(_) => 4
            case Json(_) => 5
            case Stream(_) => 6
  {
  }

  lemma Powers()
    ensures Pow256(4) == U32 && Pow256(8) == U64
  {
    assert Pow256(2) == 65536;
    assert Pow256(4) == U32;
    assert Pow256(6) == 65536 * U32;
  }

  // ------------------------------------------------------------- encoding

  function EncStr(x: Str): Str { LittleEndian(|x|, 4) + x }

  function EncPair(p: (Str, Str)): Str { EncStr(p.0) + EncStr(p.1) }

  function EncScore(p: (Str, nat)): Str { EncStr(p.0) + LittleEndian(p.1, 8) }

  function EncMany<T>(enc: T -> Str, xs: seq<T>): Str {
    if xs == [] then [] else enc(xs[0]) + EncMany(enc, xs[1..])
  }

  function EncList<T>(enc: T -> Str, xs: seq<T>): Str {
    LittleEndian(|xs|, 4) + EncMany(enc, xs)
  }

  function EncEntry(e: Entry): Str {
    LittleEndian(e.ms, 8) + (LittleEndian(e.num, 8) + EncList(EncPair, e.fields))
  }

  function Tag(b: Body): byte {
    match b
    case Text(_) => 0
    case Hash(_) => 1
    case List(_) => 2
    case Set(_) => 3
    case ZSet(_) => 4
    case Json(_) => 5
    case Stream(_) => 6
  }

  function EncBody(b: Body): Str {
    match b
    case Text(text) => EncStr(text)
    case Hash(fields) => EncList(EncPair, fields)
    case List(items) => EncList(EncStr, items)
    case Set(members) => EncList(EncStr, members)
    case ZSet(scores) => EncList(EncScore, scores)
    case Json(json) => EncStr(json)
    case Stream(entries) => EncList(EncEntry, entries)
  }

  function EncRecord(r: Record): Str {
    [Tag(r.body)] + (LittleEndian(r.ttl, 8) + (EncStr(r.key) + EncBody(r.body)))
  }

  // -------------------------------------------------------------- reading

  function ReadInt(s: Str, k: nat): Res<nat> {
    if |s| < k then Fail else Ok(FromLittleEndian(s[..k]), s[k..])
  }

  function ReadStr(s: Str): Res<Str> {
    match ReadInt(s, 4)
    case Fail => Fail
    case Ok(len, r) =>
      if len > MAX_LOAD_STRING || |r| < len || !Utf8(r[..len]) then Fail else Ok(r[..len], r[len..])
  }

  function ReadPair(s: Str): Res<(Str, Str)> {
    match ReadStr(s)
    case Fail => Fail
    case Ok(a, r) =>
      match ReadStr(r)
      case Fail => Fail
      case Ok(b, r') => Ok((a, b), r')
  }

  function ReadScore(s: Str): Res<(Str, nat)> {
    match ReadStr(s)
    case Fail => Fail
    case Ok(a, r) =>
      match ReadInt(r, 8)
      case Fail => Fail
      case Ok(b, r') => Ok((a, b), r')
  }

  /** n items, after those in acc. */
  function ReadMany<T>(read: Str -> Res<T>, s: Str, n: nat, acc: seq<T>): Res<seq<T>>
    decreases n
  {
    if n == 0 then Ok(acc, s)
    else
      match read(s)
      case Fail => Fail
      case Ok(x, r) => ReadMany(read, r, n - 1, acc + [x])
  }

  /** A count and that many items; a count above the limit is refused. */
  function ReadList<T>(read: Str -> Res<T>, s: Str, limit: nat): Res<seq<T>> {
    match ReadInt(s, 4)
    case Fail => Fail
    case Ok(n, r) => if n > limit then Fail else ReadMany(read, r, n, [])
  }

  function ReadEntry(s: Str): Res<Entry> {
    match ReadInt(s, 8)
    case Fail => Fail
    case Ok(ms, r) =>
      match ReadInt(r, 8)
      case Fail => Fail
      case Ok(num, r') =>
        match ReadList(ReadPair, r', U32)
        case Fail => Fail
        case Ok(fields, r'') => Ok(Entry(ms, num, fields), r'')
  }

  function ReadBody(tag: byte, s: Str): Res<Body> {
    match tag
    case 0 => (match ReadStr(s) case Fail => Fail case Ok(x, r) => Ok(Text(x), r))
    case 1 => (match ReadList(ReadPair, s, MAX_COUNT) case Fail => Fail case Ok(x, r) => Ok(Hash(x), r))
    case 2 => (match ReadList(ReadStr, s, MAX_COUNT) case Fail => Fail case Ok(x, r) => Ok(List(x), r))
    case 3 => (match ReadList(ReadStr, s, MAX_COUNT) case Fail => Fail case Ok(x, r) => Ok(Set(x), r))
    case 4 => (match ReadList(ReadScore, s, MAX_COUNT) case Fail => Fail case Ok(x, r) => Ok(ZSet(x), r))
    case 5 => (match ReadStr(s) case Fail => Fail case Ok(x, r) => Ok(Json(x), r))
    case 6 => (match ReadList(ReadEntry, s, MAX_COUNT) case Fail => Fail case Ok(x, r) => Ok(Stream(x), r))
    case _ => Fail
  }

  // ------------------------------------------------------------- skipping

  function SkipInt(s: Str, k: nat): Option<Str> { if |s| < k then None else Some(s[k..]) }

  function SkipStr(s: Str): Option<Str> {
    match ReadInt(s, 4)
    case Fail => None
    case Ok(len, r) => SkipInt(r, len)
  }

  function SkipPair(s: Str): Option<Str> {
    match SkipStr(s)
    case None => None
    case Some(r) => SkipStr(r)
  }

  function SkipScore(s: Str): Option<Str> {
    match SkipStr(s)
    case None => None
    case Some(r) => SkipInt(r, 8)
  }

  function SkipMany(skip: Str -> Option<Str>, s: Str, n: nat): Option<Str>
    decreases n
  {
    if n == 0 then Some(s)
    else
      match skip(s)
      case None => None
      case Some(r) => SkipMany(skip, r, n - 1)
  }

  function SkipList(skip: Str -> Option<Str>, s: Str): Option<Str> {
    match ReadInt(s, 4)
    case Fail => None
    case Ok(n, r) => SkipMany(skip, r, n)
  }

  function SkipEntry(s: Str): Option<Str> {
    match SkipInt(s, 8)
    case None => None
    case Some(r) =>
      match SkipInt(r, 8)
      case None => None
      case Some(r') => SkipList(SkipPair, r')
  }

  function SkipBody(tag: byte, s: Str): Option<Str> {
    match tag
    case 0 => SkipStr(s)
    case 1 => SkipList(SkipPair, s)
    case 2 => SkipList(SkipStr, s)
    case 3 => SkipList(SkipStr, s)
    case 4 => SkipList(SkipScore, s)
    case 5 => SkipStr(s)
    case 6 => SkipList(SkipEntry, s)
    case _ => None
  }

  // ------------------------------ skipping consumes what reading consumes

  ghost predicate Agrees<T(!new)>(read: Str -> Res<T>, skip: Str -> Option<Str>) {
    forall s :: read(s).Ok? ==> skip(s) == Some(read(s).rest)
  }

  lemma {:induction false} ManyAgree<T(!new)>(read: Str -> Res<T>, skip: Str -> Option<Str>, s: Str, n: nat,
                                              acc: seq<T>)
    requires Agrees(read, skip)
    ensures ReadMany(read, s, n, acc).Ok? ==> SkipMany(skip, s, n) == Some(ReadMany(read, s, n, acc).rest)
    decreases n
  {
    if n > 0 && read(s).Ok? {
      ManyAgree(read, skip, read(s).rest, n - 1, acc + [read(s).value]);
    }
  }

  lemma ListAgree<T(!new)>(read: Str -> Res<T>, skip: Str -> Option<Str>, s: Str, limit: nat)
    requires Agrees(read, skip)
    ensures ReadList(read, s, limit).Ok? ==> SkipList(skip, s) == Some(ReadList(read, s, limit).rest)
  {
    var c := ReadInt(s, 4);
    if c.Ok? {
      ManyAgree(read, skip, c.rest, c.value, []);
    }
  }

  lemma PairsAgree()
    ensures Agrees(ReadPair, SkipPair)
  {
    assert Agrees(ReadStr, SkipStr);
  }

  lemma EntriesAgree()
    ensures Agrees(ReadEntry, SkipEntry)
  {
    PairsAgree();
    forall s | ReadEntry(s).Ok? ensures SkipEntry(s) == Some(ReadEntry(s).rest) {
      ListAgree(ReadPair, SkipPair, s[8..][8..], U32);
    }
  }

  /** Whenever a value can be read, skipping it stops at the same byte. */
  lemma SkipAgreesWithRead(tag: byte, s: Str)
    ensures ReadBody(tag, s).Ok? ==> SkipBody(tag, s) == Some(ReadBody(tag, s).rest)
  {
    PairsAgree();
    EntriesAgree();
    match tag {
      case 1 => ListAgree(ReadPair, SkipPair, s, MAX_COUNT);
      case 2 => ListAgree(ReadStr, SkipStr, s, MAX_COUNT);
      case 3 => ListAgree(ReadStr, SkipStr, s, MAX_COUNT);
      case 4 => ListAgree(ReadScore, SkipScore, s, MAX_COUNT);
      case 6 => ListAgree(ReadEntry, SkipEntry, s, MAX_COUNT);
      case _ =>
    }
  }

  // ------------------------------------- reading undoes writing

  /** Lengths and numbers that their fields can hold. */
  predicate WritableStr(x: Str) { |x| < U32 }
  predicate WritablePair(p: (Str, Str)) { WritableStr(p.0) && WritableStr(p.1) }
  predicate WritableScore(p: (Str, nat)) { WritableStr(p.0) && p.1 < U64 }

  predicate WritableList<T>(w: T -> bool, xs: seq<T>) {
    |xs| < U32 && forall i :: 0 <= i < |xs| ==> w(xs[i])
  }

  predicate WritableEntry(e: Entry) { e.ms < U64 && e.num < U64 && WritableList(WritablePair, e.fields) }

  predicate WritableBody(b: Body) {
    match b
    case Text(text) => WritableStr(text)
    case Hash(fields) => WritableList(WritablePair, fields)
    case List(items) => WritableList(WritableStr, items)
    case Set(members) => WritableList(WritableStr, members)
    case ZSet(scores) => WritableList(WritableScore, scores)
    case Json(json) => WritableStr(json)
    case Stream(entries) => WritableList(WritableEntry, entries)
  }

  predicate Writable(r: Record) { WritableStr(r.key) && r.ttl < U64 && WritableBody(r.body) }

  /** What the loader takes: strings of UTF-8, all within its limits. */
  predicate LoadableStr(x: Str) { |x| <= 536870912 && Utf8(x) }
  predicate LoadablePair(p: (Str, Str)) { LoadableStr(p.0) && LoadableStr(p.1) }
  predicate LoadableScore(p: (Str, nat)) { LoadableStr(p.0) }
  predicate LoadableAll<T>(l: T -> bool, xs: seq<T>) { forall i :: 0 <= i < |xs| ==> l(xs[i]) }
  predicate LoadableEntry(e: Entry) { LoadableAll(LoadablePair, e.fields) }

  predicate LoadableList<T>(l: T -> bool, xs: seq<T>) { |xs| <= 10000000 && LoadableAll(l, xs) }

  predicate LoadableBody(b: Body) {
    match b
    case Text(text) => LoadableStr(text)
    case Hash(fields) => LoadableList(LoadablePair, fields)
    case List(items) => LoadableList(LoadableStr, items)
    case Set(members) => LoadableList(LoadableStr, members)
    case ZSet(scores) => LoadableList(LoadableScore, scores)
    case Json(json) => LoadableStr(json)
    case Stream(entries) => LoadableList(LoadableEntry, entries)
  }

  predicate InvertsAt<T(==)>(read: Str -> Res<T>, enc: T -> Str, l: T -> bool, x: T, r: Str) {
    read(enc(x) + r) == if l(x) then Ok(x, r) else Fail
  }

  ghost predicate Inverts<T(!new)>(read: Str -> Res<T>, enc: T -> Str, w: T -> bool, l: T -> bool) {
    forall x, r :: w(x) ==> InvertsAt(read, enc, l, x, r)
  }

  predicate PassesAt<T>(skip: Str -> Option<Str>, enc: T -> Str, x: T, r: Str) {
    skip(enc(x) + r) == Some(r)
  }

  ghost predicate Passes<T(!new)>(skip: Str -> Option<Str>, enc: T -> Str, w: T -> bool) {
    forall x, r :: w(x) ==> PassesAt(skip, enc, x, r)
  }

  lemma IntEncoded(n: nat, k: nat, rest: Str)
    requires n < Pow256(k)
    ensures ReadInt(LittleEndian(n, k) + rest, k) == Ok(n, rest)
    ensures SkipInt(LittleEndian(n, k) + rest, k) == Some(rest)
  {
    LittleEndianExact(n, k);
    var s := LittleEndian(n, k) + rest;
    assert s[..k] == LittleEndian(n, k) && s[k..] == rest;
  }

  lemma StrEncoded(x: Str, rest: Str)
    requires WritableStr(x)
    ensures ReadStr(EncStr(x) + rest) == if LoadableStr(x) then Ok(x, rest) else Fail
    ensures SkipStr(EncStr(x) + rest) == Some(rest)
  {
    Powers();
    Assoc(LittleEndian(|x|, 4), x, rest);
    IntEncoded(|x|, 4, x + rest);
    assert (x + rest)[..|x|] == x && (x + rest)[|x|..] == rest;
  }

  lemma StrsInvert()
    ensures Inverts(ReadStr, EncStr, WritableStr, LoadableStr) && Passes(SkipStr, EncStr, WritableStr)
  {
    forall x, r | WritableStr(x)
      ensures InvertsAt(ReadStr, EncStr, LoadableStr, x, r)
      ensures PassesAt(SkipStr, EncStr, x, r)
    {
      StrEncoded(x, r);
    }
  }

  lemma PairEncoded(p: (Str, Str), rest: Str)
    requires WritablePair(p)
    ensures ReadPair(EncPair(p) + rest) == if LoadablePair(p) then Ok(p, rest) else Fail
    ensures SkipPair(EncPair(p) + rest) == Some(rest)
  {
    Assoc(EncStr(p.0), EncStr(p.1), rest);
    StrEncoded(p.0, EncStr(p.1) + rest);
    StrEncoded(p.1, rest);
  }

  lemma PairsInvert()
    ensures Inverts(ReadPair, EncPair, WritablePair, LoadablePair) && Passes(SkipPair, EncPair, WritablePair)
  {
    forall x, r | WritablePair(x)
      ensures InvertsAt(ReadPair, EncPair, LoadablePair, x, r)
      ensures PassesAt(SkipPair, EncPair, x, r)
    {
      PairEncoded(x, r);
    }
  }

  lemma ScoreEncoded(p: (Str, nat), rest: Str)
    requires WritableScore(p)
    ensures ReadScore(EncScore(p) + rest) == if LoadableScore(p) then Ok(p, rest) else Fail
    ensures SkipScore(EncScore(p) + rest) == Some(rest)
  {
    Powers();
    Assoc(EncStr(p.0), LittleEndian(p.1, 8), rest);
    StrEncoded(p.0, LittleEndian(p.1, 8) + rest);
    IntEncoded(p.1, 8, rest);
  }

  lemma ScoresInvert()
    ensures Inverts(ReadScore, EncScore, WritableScore, LoadableScore)
    ensures Passes(SkipScore, EncScore, WritableScore)
  {
    forall x, r | WritableScore(x)
      ensures InvertsAt(ReadScore, EncScore, LoadableScore, x, r)
      ensures PassesAt(SkipScore, EncScore, x, r)
    {
      ScoreEncoded(x, r);
    }
  }

  lemma {:induction false} ManyEncoded<T(!new)>(read: Str -> Res<T>, enc: T -> Str, w: T -> bool, l: T -> bool,
                                                xs: seq<T>, rest: Str, acc: seq<T>)
    requires Inverts(read, enc, w, l) && forall i :: 0 <= i < |xs| ==> w(xs[i])
    ensures ReadMany(read, EncMany(enc, xs) + rest, |xs|, acc) ==
            if LoadableAll(l, xs) then Ok(acc + xs, rest) else Fail
  {
    if xs == [] {
      assert EncMany(enc, xs) + rest == rest && acc + xs == acc;
    } else {
      var x, ys := xs[0], xs[1..];
      Assoc(enc(x), EncMany(enc, ys), rest);
      assert w(x) && InvertsAt(read, enc, l, x, EncMany(enc, ys) + rest);
      ManyEncoded(read, enc, w, l, ys, rest, acc + [x]);
      assert xs == [x] + ys && acc + [x] + ys == acc + xs;
      assert LoadableAll(l, xs) <==> l(x) && LoadableAll(l, ys);
    }
  }

  lemma {:induction false} ManyPassed<T(!new)>(skip: Str -> Option<Str>, enc: T -> Str, w: T -> bool,
                                               xs: seq<T>, rest: Str)
    requires Passes(skip, enc, w) && forall i :: 0 <= i < |xs| ==> w(xs[i])
    ensures SkipMany(skip, EncMany(enc, xs) + rest, |xs|) == Some(rest)
  {
    if xs == [] {
      assert EncMany(enc, xs) + rest == rest;
    } else {
      Assoc(enc(xs[0]), EncMany(enc, xs[1..]), rest);
      assert w(xs[0]) && PassesAt(skip, enc, xs[0], EncMany(enc, xs[1..]) + rest);
      ManyPassed(skip, enc, w, xs[1..], rest);
    }
  }

  lemma ListEncoded<T(!new)>(read: Str -> Res<T>, skip: Str -> Option<Str>, enc: T -> Str, w: T -> bool, l: T -> bool,
                             xs: seq<T>, rest: Str, limit: nat)
    requires Inverts(read, enc, w, l) && Passes(skip, enc, w) && WritableList(w, xs)
    ensures ReadList(read, EncList(enc, xs) + rest, limit) ==
            if |xs| <= limit && LoadableAll(l, xs) then Ok(xs, rest) else Fail
    ensures SkipList(skip, EncList(enc, xs) + rest) == Some(rest)
  {
    Powers();
    Assoc(LittleEndian(|xs|, 4), EncMany(enc, xs), rest);
    IntEncoded(|xs|, 4, EncMany(enc, xs) + rest);
    ManyEncoded(read, enc, w, l, xs, rest, []);
    ManyPassed(skip, enc, w, xs, rest);
    assert [] + xs == xs;
  }

  lemma EntryEncoded(e: Entry, rest: Str)
    requires WritableEntry(e)
    ensures ReadEntry(EncEntry(e) + rest) == if LoadableEntry(e) then Ok(e, rest) else Fail
    ensures SkipEntry(EncEntry(e) + rest) == Some(rest)
  {
    Powers();
    PairsInvert();
    var a, b, c := LittleEndian(e.ms, 8), LittleEndian(e.num, 8), EncList(EncPair, e.fields);
    Assoc(a, b + c, rest);
    Assoc(b, c, rest);
    IntEncoded(e.ms, 8, b + (c + rest));
    IntEncoded(e.num, 8, c + rest);
    ListEncoded(ReadPair, SkipPair, EncPair, WritablePair, LoadablePair, e.fields, rest, U32);
  }

  lemma EntriesInvert()
    ensures Inverts(ReadEntry, EncEntry, WritableEntry, LoadableEntry)
    ensures Passes(SkipEntry, EncEntry, WritableEntry)
  {
    forall x, r | WritableEntry(x)
      ensures InvertsAt(ReadEntry, EncEntry, LoadableEntry, x, r)
      ensures PassesAt(SkipEntry, EncEntry, x, r)
    {
      EntryEncoded(x, r);
    }
  }

  lemma StrListEncoded(xs: seq<Str>, rest: Str)
    requires WritableList(WritableStr, xs)
    ensures ReadList(ReadStr, EncList(EncStr, xs) + rest, MAX_COUNT) ==
            if LoadableList(LoadableStr, xs) then Ok(xs, rest) else Fail
    ensures SkipList(SkipStr, EncList(EncStr, xs) + rest) == Some(rest)
  {
    StrsInvert();
    ListEncoded(ReadStr, SkipStr, EncStr, WritableStr, LoadableStr, xs, rest, MAX_COUNT);
  }

  lemma PairListEncoded(xs: seq<(Str, Str)>, rest: Str)
    requires WritableList(WritablePair, xs)
    ensures ReadList(ReadPair, EncList(EncPair, xs) + rest, MAX_COUNT) ==
            if LoadableList(LoadablePair, xs) then Ok(xs, rest) else Fail
    ensures SkipList(SkipPair, EncList(EncPair, xs) + rest) == Some(rest)
  {
    PairsInvert();
    ListEncoded(ReadPair, SkipPair, EncPair, WritablePair, LoadablePair, xs, rest, MAX_COUNT);
  }

  lemma ScoreListEncoded(xs: seq<(Str, nat)>, rest: Str)
    requires WritableList(WritableScore, xs)
    ensures ReadList(ReadScore, EncList(EncScore, xs) + rest, MAX_COUNT) ==
            if LoadableList(LoadableScore, xs) then Ok(xs, rest) else Fail
    ensures SkipList(SkipScore, EncList(EncScore, xs) + rest) == Some(rest)
  {
    ScoresInvert();
    ListEncoded(ReadScore, SkipScore, EncScore, WritableScore, LoadableScore, xs, rest, MAX_COUNT);
  }

  lemma EntryListEncoded(xs: seq<Entry>, rest: Str)
    requires WritableList(WritableEntry, xs)
    ensures ReadList(ReadEntry, EncList(EncEntry, xs) + rest, MAX_COUNT) ==
            if LoadableList(LoadableEntry, xs) then Ok(xs, rest) else Fail
    ensures SkipList(SkipEntry, EncList(EncEntry, xs) + rest) == Some(rest)
  {
    EntriesInvert();
    ListEncoded(ReadEntry, SkipEntry, EncEntry, WritableEntry, LoadableEntry, xs, rest, MAX_COUNT);
  }

  predicate ReadsBack(b: Body, rest: Str) {
    ReadBody(Tag(b), EncBody(b) + rest) == if LoadableBody(b) then Ok(b, rest) else Fail
  }

  predicate SkipsOver(b: Body, rest: Str) {
    SkipBody(Tag(b), EncBody(b) + rest) == Some(rest)
  }

  lemma TextBack(x: Str, rest: Str)
    requires WritableBody(Text(x))
    ensures ReadsBack(Text(x), rest) && SkipsOver(Text(x), rest)
  {
    StrEncoded(x, rest);
  }

  lemma HashBack(x: Fields, rest: Str)
    requires WritableBody(Hash(x))
    ensures ReadsBack(Hash(x), rest) && SkipsOver(Hash(x), rest)
  {
    PairListEncoded(x, rest);
  }

  lemma ListBack(x: seq<Str>, rest: Str)
    requires WritableBody(List(x))
    ensures ReadsBack(List(x), rest) && SkipsOver(List(x), rest)
  {
    StrListEncoded(x, rest);
  }

  lemma SetBack(x: seq<Str>, rest: Str)
    requires WritableBody(Set(x))
    ensures ReadsBack(Set(x), rest) && SkipsOver(Set(x), rest)
  {
    StrListEncoded(x, rest);
  }

  lemma ZSetBack(x: seq<(Str, nat)>, rest: Str)
    requires WritableBody(ZSet(x))
    ensures ReadsBack(ZSet(x), rest) && SkipsOver(ZSet(x), rest)
  {
    ScoreListEncoded(x, rest);
  }

  lemma JsonBack(x: Str, rest: Str)
    requires WritableBody(Json(x))
    ensures ReadsBack(Json(x), rest) && SkipsOver(Json(x), rest)
  {
    StrEncoded(x, rest);
  }

  lemma StreamBack(x: seq<Entry>, rest: Str)
    requires WritableBody(Stream(x))
    ensures ReadsBack(Stream(x), rest) && SkipsOver(Stream(x), rest)
  {
    EntryListEncoded(x, rest);
  }

  /**
   * A value reads back exactly when it is within the limits; skipping passes
   * over any value that was written.
   */
  lemma BodyEncoded(b: Body, rest: Str)
    requires WritableBody(b)
    ensures ReadsBack(b, rest) && SkipsOver(b, rest)
  {
    match b {
      case Text(x) => TextBack(x, rest);
      case Hash(x) => HashBack(x, rest);
      case List(x) => ListBack(x, rest);
      case Set(x) => SetBack(x, rest);
      case ZSet(x) => ZSetBack(x, rest);
      case Json(x) => JsonBack(x, rest);
      case Stream(x) => StreamBack(x, rest);
    }
  }

  // ---------------------------------- later bytes change no verdict

  ghost predicate Stable<T(!new)>(read: Str -> Res<T>) {
    forall s, t :: read(s).Ok? ==> read(s + t) == Ok(read(s).value, read(s).rest + t)
  }

  ghost predicate StableSkip(skip: Str -> Option<Str>) {
    forall s, t :: skip(s).Some? ==> skip(s + t) == Some(skip(s).value + t)
  }

  lemma IntStable(s: Str, t: Str, k: nat)
    requires |s| >= k
    ensures (s + t)[..k] == s[..k] && (s + t)[k..] == s[k..] + t
  {
  }

  lemma StrStable()
    ensures Stable(ReadStr) && StableSkip(SkipStr)
  {
    forall s, t | SkipStr(s).Some?
      ensures SkipStr(s + t) == Some(SkipStr(s).value + t)
      ensures ReadStr(s).Ok? ==> ReadStr(s + t) == Ok(ReadStr(s).value, ReadStr(s).rest + t)
    {
      IntStable(s, t, 4);
      IntStable(s[4..], t, FromLittleEndian(s[..4]));
    }
  }

  lemma PairStable()
    ensures Stable(ReadPair) && StableSkip(SkipPair)
  {
    StrStable();
  }

  lemma ScoreStable()
    ensures Stable(ReadScore) && StableSkip(SkipScore)
  {
    StrStable();
    forall s, t | SkipScore(s).Some?
      ensures SkipScore(s + t) == Some(SkipScore(s).value + t)
      ensures ReadScore(s).Ok? ==> ReadScore(s + t) == Ok(ReadScore(s).value, ReadScore(s).rest + t)
    {
      IntStable(SkipStr(s).value, t, 8);
    }
  }

  lemma {:induction false} ManyStable<T(!new)>(read: Str -> Res<T>, s: Str, t: Str, n: nat, acc: seq<T>)
    requires Stable(read) && ReadMany(read, s, n, acc).Ok?
    ensures var r := ReadMany(read, s, n, acc);
            ReadMany(read, s + t, n, acc) == Ok(r.value, r.rest + t)
    decreases n
  {
    if n > 0 {
      ManyStable(read, read(s).rest, t, n - 1, acc + [read(s).value]);
    }
  }

  lemma {:induction false} ManySkipStable(skip: Str -> Option<Str>, s: Str, t: Str, n: nat)
    requires StableSkip(skip) && SkipMany(skip, s, n).Some?
    ensures SkipMany(skip, s + t, n) == Some(SkipMany(skip, s, n).value + t)
    decreases n
  {
    if n > 0 {
      ManySkipStable(skip, skip(s).value, t, n - 1);
    }
  }

  lemma ListStable<T(!new)>(read: Str -> Res<T>, s: Str, t: Str, limit: nat)
    requires Stable(read) && ReadList(read, s, limit).Ok?
    ensures var r := ReadList(read, s, limit);
            ReadList(read, s + t, limit) == Ok(r.value, r.rest + t)
  {
    IntStable(s, t, 4);
    ManyStable(read, s[4..], t, FromLittleEndian(s[..4]), []);
  }

  lemma ListSkipStable(skip: Str -> Option<Str>, s: Str, t: Str)
    requires StableSkip(skip) && SkipList(skip, s).Some?
    ensures SkipList(skip, s + t) == Some(SkipList(skip, s).value + t)
  {
    IntStable(s, t, 4);
    ManySkipStable(skip, s[4..], t, FromLittleEndian(s[..4]));
  }

  lemma EntryStable()
    ensures Stable(ReadEntry) && StableSkip(SkipEntry)
  {
    PairStable();
    forall s, t | SkipEntry(s).Some?
      ensures SkipEntry(s + t) == Some(SkipEntry(s).value + t)
      ensures ReadEntry(s).Ok? ==> ReadEntry(s + t) == Ok(ReadEntry(s).value, ReadEntry(s).rest + t)
    {
      IntStable(s, t, 8);
      IntStable(s[8..], t, 8);
      ListSkipStable(SkipPair, s[8..][8..], t);
      if ReadEntry(s).Ok? {
        ListStable(ReadPair, s[8..][8..], t, U32);
      }
    }
    EntriesAgree();
  }

  lemma BodyStable(tag: byte, s: Str, t: Str)
    requires ReadBody(tag, s).Ok?
    ensures ReadBody(tag, s + t) == Ok(ReadBody(tag, s).value, ReadBody(tag, s).rest + t)
  {
    StrStable();
    match tag {
      case 1 => PairStable(); ListStable(ReadPair, s, t, MAX_COUNT);
      case 2 => ListStable(ReadStr, s, t, MAX_COUNT);
      case 3 => ListStable(ReadStr, s, t, MAX_COUNT);
      case 4 => ScoreStable(); ListStable(ReadScore, s, t, MAX_COUNT);
      case 6 => EntryStable(); ListStable(ReadEntry, s, t, MAX_COUNT);
      case _ =>
    }
  }

  lemma BodySkipStable(tag: byte, s: Str, t: Str)
    requires SkipBody(tag, s).Some?
    ensures SkipBody(tag, s + t) == Some(SkipBody(tag, s).value + t)
  {
    StrStable();
    match tag {
      case 1 => PairStable(); ListSkipStable(SkipPair, s, t);
      case 2 => ListSkipStable(SkipStr, s, t);
      case 3 => ListSkipStable(SkipStr, s, t);
      case 4 => ScoreStable(); ListSkipStable(SkipScore, s, t);
      case 6 => EntryStable(); ListSkipStable(SkipEntry, s, t);
      case _ =>
    }
  }
}
