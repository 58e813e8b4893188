/** Pattern subscriptions, kept in 256 buckets by first byte and one list of
    patterns that start with a wildcard, against one list of all subscriptions. */
module Registry {
  import opened Bytes
  import opened Glob

  const BRACKET: byte := 91

  /** A subscription; `slot` identifies the subscriber's slot. */
  datatype Entry = Entry(pattern: seq<byte>, slot: nat)

  /** The list an entry belongs to: a bucket, or -1 for the wildcard list. */
  function ListOf(pattern: seq<byte>): (c: int)
    ensures -1 <= c < 256
  {
    if pattern == [] || pattern[0] == STAR || pattern[0] == QUESTION || pattern[0] == BRACKET then -1
    else pattern[0]
  }

  /** The subscriptions of one list, in order of arrival. */
  function InList(subs: seq<Entry>, c: int): seq<Entry> {
    if subs == [] then []
    else if ListOf(subs[0].pattern) == c then [subs[0]] + InList(subs[1..], c)
    else InList(subs[1..], c)
  }

  /** The subscriptions left when a pattern is dropped by a slot. */
  function Without(subs: seq<Entry>, pattern: seq<byte>, slot: nat): seq<Entry> {
    if subs == [] then []
    else if subs[0] == Entry(pattern, slot) then Without(subs[1..], pattern, slot)
    else [subs[0]] + Without(subs[1..], pattern, slot)
  }

  /** a is b with some entries left out. */
  predicate InOrder(a: seq<Entry>, b: seq<Entry>) {
    a == [] || (b != [] && ((a[0] == b[0] && InOrder(a[1..], b[1..])) || InOrder(a, b[1..])))
  }

  /** Every entry with that pattern and that slot is gone, and the others are
      there as often as before, in the same order. */
  lemma {:induction false} WithoutMeans(subs: seq<Entry>, pattern: seq<byte>, slot: nat)
    ensures multiset(Without(subs, pattern, slot)) == multiset(subs)[Entry(pattern, slot) := 0]
    ensures InOrder(Without(subs, pattern, slot), subs)
  {
    if subs != [] {
      var e, rest := subs[0], subs[1..];
      assert subs == [e] + rest;
      WithoutMeans(rest, pattern, slot);
      assert ([e] + Without(rest, pattern, slot))[1..] == Without(rest, pattern, slot);
    }
  }

  /** The subscriptions whose pattern the matcher accepts for a channel. */
  function Hits(subs: seq<Entry>, channel: seq<byte>): seq<Entry> {
    if subs == [] then []
    else if GlobResult(subs[0].pattern, channel) then [subs[0]] + Hits(subs[1..], channel)
    else Hits(subs[1..], channel)
  }

  class PatternIndex {
    var buckets: array<seq<Entry>>
    var wildcard: seq<Entry>
    var total: nat
    ghost var Subs: seq<Entry>

    ghost predicate Valid()
      reads this, buckets
    {
      && buckets.Length == 256
      && wildcard == InList(Subs, -1)
      && (forall b :: 0 <= b < 256 ==> buckets[b] == InList(Subs, b))
      && total == |Subs|
    }

    constructor ()
      ensures Valid() && fresh(buckets) && Subs == []
    {
      buckets := new seq<Entry>[256](_ => []);
      wildcard := [];
      total := 0;
      Subs := [];
    }

    method Add(pattern: seq<byte>, slot: nat)
      requires Valid()
      modifies this, buckets
      ensures Valid() && buckets == old(buckets) && Subs == old(Subs) + [Entry(pattern, slot)]
    {
      var entry := Entry(pattern, slot);
      forall c ensures InList(Subs + [entry], c) ==
                       InList(Subs, c) + if c == ListOf(pattern) then [entry] else []
      {
        InListAppend(Subs, entry, c);
      }
      var c := ListOf(pattern);
      if c == -1 {
        wildcard := wildcard + [entry];
      } else {
        buckets[c] := buckets[c] + [entry];
      }
      total := total + 1;
      Subs := Subs + [entry];
    }

    method Remove(pattern: seq<byte>, slot: nat)
      requires Valid()
      modifies this, buckets
      ensures Valid() && buckets == old(buckets) && Subs == Without(old(Subs), pattern, slot)
      ensures multiset(Subs) == multiset(old(Subs))[Entry(pattern, slot) := 0] && InOrder(Subs, old(Subs))
    {
      WithoutMeans(Subs, pattern, slot);
      forall c ensures InList(Without(Subs, pattern, slot), c) ==
                       if c == ListOf(pattern) then Without(InList(Subs, c), pattern, slot) else InList(Subs, c)
      {
        InListWithout(Subs, pattern, slot, c);
      }
      WithoutCount(Subs, pattern, slot);
      var c := ListOf(pattern);
      if c == -1 {
        var kept := RetainOthers(wildcard, pattern, slot);
        total := total - (|wildcard| - |kept|);
        wildcard := kept;
      } else {
        var kept := RetainOthers(buckets[c], pattern, slot);
        total := total - (|buckets[c]| - |kept|);
        buckets[c] := kept;
      }
      Subs := Without(Subs, pattern, slot);
    }

    /** The pattern part of `publish`: what is pushed, in order, and how many. */
    method Publish(channel: seq<byte>) returns (pushed: seq<Entry>, count: nat)
      requires Valid()
      ensures multiset(pushed) == multiset(Hits(Subs, channel)) && count == |Hits(Subs, channel)|
      ensures STAR !in channel ==>
                multiset(pushed) == multiset(Meant(Subs, channel)) && count == |Meant(Subs, channel)|
    {
      pushed, count := [], 0;
      if total != 0 {
        pushed, count := CheckAll(wildcard, channel);
        if channel != [] {
          var more, n := CheckAll(buckets[channel[0]], channel);
          pushed := pushed + more;
          count := count + n;
        }
      }
      BucketsSuffice(Subs, channel);
      assert multiset(pushed) == multiset(Hits(Subs, channel));
      assert |pushed| == |multiset(pushed)| && |Hits(Subs, channel)| == |multiset(Hits(Subs, channel))|;
      if STAR !in channel { HitsAreMeant(Subs, channel); }
    }
  }

  /** `vec.retain` of the entries other than the one dropped. */
  method RetainOthers(list: seq<Entry>, pattern: seq<byte>, slot: nat) returns (kept: seq<Entry>)
    ensures kept == Without(list, pattern, slot)
  {
    kept := [];
    var i := 0;
    assert list[0..] == list;
    while i < |list|
      invariant 0 <= i <= |list| && kept + Without(list[i..], pattern, slot) == Without(list, pattern, slot)
    {
      assert list[i..][1..] == list[i + 1..];
      if list[i] != Entry(pattern, slot) {
        kept := kept + [list[i]];
      }
      i := i + 1;
    }
  }

  /** The loop that tests and pushes the entries of one list. */
  method CheckAll(list: seq<Entry>, channel: seq<byte>) returns (pushed: seq<Entry>, count: nat)
    ensures pushed == Hits(list, channel) && count == |pushed|
  {
    pushed, count := [], 0;
    var i := 0;
    assert list[0..] == list;
    while i < |list|
      invariant 0 <= i <= |list| && pushed + Hits(list[i..], channel) == Hits(list, channel) && count == |pushed|
    {
      assert list[i..][1..] == list[i + 1..];
      var hit := GlobMatch(list[i].pattern, channel);
      if hit {
        pushed := pushed + [list[i]];
        count := count + 1;
      }
      i := i + 1;
    }
  }

  // ----- why the buckets suffice ------------------------------------------------------

  /** The subscriptions whose pattern means the channel. */
  ghost function Meant(subs: seq<Entry>, channel: seq<byte>): seq<Entry> {
    if subs == [] then []
    else if Matches(subs[0].pattern, channel) then [subs[0]] + Meant(subs[1..], channel)
    else Meant(subs[1..], channel)
  }

  lemma {:induction false} HitsAreMeant(subs: seq<Entry>, channel: seq<byte>)
    requires STAR !in channel
    ensures Hits(subs, channel) == Meant(subs, channel)
  {
    if subs != [] {
      GreedyIsMatches(subs[0].pattern, channel);
      HitsAreMeant(subs[1..], channel);
    }
  }

  /** A pattern in another bucket cannot match the channel, whatever bytes the channel holds. */
  lemma OtherBucketMisses(pattern: seq<byte>, channel: seq<byte>)
    requires ListOf(pattern) >= 0
    ensures GlobResult(pattern, channel) ==> channel != [] && ListOf(pattern) == channel[0]
  {
    if channel == [] {
      assert pattern[0..] == pattern;
    }
  }

  /** The entries one list contributes: empty for the bucket of no channel. */
  ghost function FromList(subs: seq<Entry>, channel: seq<byte>, c: int): multiset<Entry> {
    multiset(Hits(InList(subs, c), channel))
  }

  ghost function Once(e: Entry, hit: bool): multiset<Entry> {
    if hit then multiset{e} else multiset{}
  }

  lemma FromListCons(e: Entry, rest: seq<Entry>, channel: seq<byte>, c: int)
    ensures FromList([e] + rest, channel, c) ==
              FromList(rest, channel, c) + Once(e, ListOf(e.pattern) == c && GlobResult(e.pattern, channel))
  {
    assert ([e] + rest)[1..] == rest;
    HitsCons(e, InList(rest, c), channel);
  }

  lemma Combine(h: multiset<Entry>, w: multiset<Entry>, b: multiset<Entry>, e: Entry, hit: bool, inW: bool, inB: bool)
    requires h == w + b && (hit ==> inW != inB)
    ensures h + Once(e, hit) == (w + Once(e, inW && hit)) + (b + Once(e, inB && hit))
  {}

  /** The bucket a channel selects. */
  ghost function FromBucket(subs: seq<Entry>, channel: seq<byte>): multiset<Entry> {
    if channel == [] then multiset{} else FromList(subs, channel, channel[0])
  }

  /** The wildcard list and the bucket of the first byte hold every match, once. */
  lemma {:induction false} BucketsSuffice(subs: seq<Entry>, channel: seq<byte>)
    ensures multiset(Hits(subs, channel)) == FromList(subs, channel, -1) + FromBucket(subs, channel)
  {
    if subs != [] {
      var e, rest := subs[0], subs[1..];
      var c, hit := ListOf(e.pattern), GlobResult(e.pattern, channel);
      assert subs == [e] + rest;
      BucketsSuffice(rest, channel);
      HitsCons(e, rest, channel);
      FromListCons(e, rest, channel, -1);
      if c >= 0 { OtherBucketMisses(e.pattern, channel); }
      var inB := channel != [] && c == channel[0];
      if channel != [] { FromListCons(e, rest, channel, channel[0]); }
      Combine(multiset(Hits(rest, channel)), FromList(rest, channel, -1), FromBucket(rest, channel),
              e, hit, c == -1, inB);
    }
  }

  lemma HitsCons(e: Entry, list: seq<Entry>, channel: seq<byte>)
    ensures Hits([e] + list, channel) == (if GlobResult(e.pattern, channel) then [e] else []) + Hits(list, channel)
  {
    assert ([e] + list)[1..] == list;
  }

  lemma {:induction false} InListAppend(subs: seq<Entry>, e: Entry, c: int)
    ensures InList(subs + [e], c) == InList(subs, c) + if ListOf(e.pattern) == c then [e] else []
  {
    if subs == [] {
      assert subs + [e] == [e] && [e][1..] == [];
    } else {
      assert (subs + [e])[1..] == subs[1..] + [e];
      InListAppend(subs[1..], e, c);
    }
  }

  lemma {:induction false} InListWithout(subs: seq<Entry>, pattern: seq<byte>, slot: nat, c: int)
    ensures InList(Without(subs, pattern, slot), c) ==
              if c == ListOf(pattern) then Without(InList(subs, c), pattern, slot) else InList(subs, c)
  {
    if subs != [] {
      var e, rest := subs[0], subs[1..];
      InListWithout(rest, pattern, slot, c);
      assert ([e] + Without(rest, pattern, slot))[1..] == Without(rest, pattern, slot);
      assert ([e] + InList(rest, c))[1..] == InList(rest, c);
    }
  }

  /** What leaves the subscriptions leaves the list of the pattern. */
  lemma {:induction false} WithoutCount(subs: seq<Entry>, pattern: seq<byte>, slot: nat)
    ensures var list := InList(subs, ListOf(pattern));
            |subs| - |Without(subs, pattern, slot)| == |list| - |Without(list, pattern, slot)|
  {
    if subs != [] {
      var e, rest := subs[0], subs[1..];
      WithoutCount(rest, pattern, slot);
      var list := InList(rest, ListOf(pattern));
      assert ([e] + list)[1..] == list;
    }
  }
}
